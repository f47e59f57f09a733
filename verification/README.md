# corekv: the memory store and its wrappers, in Dafny

corekv is a key-value store interface with several backends. This project models the
in-memory backend, which keeps every version of every key in one ordered tree, and the two
wrappers that work over any backend: the chunk store, which spreads a value over several
keys, and the namespace, which shows part of a store under a key prefix. It proves what
they promise for every input and every run, and where the code does less than the interface
promises, it proves exactly when.

`dafny verify dfyconfig.toml` checks the whole project.

## Layout

| file | contents |
|---|---|
| `Bytes.dfy`, `Sequences.dfy` | byte strings in `bytes.Compare` order, `bytesPrefixEnd`; reversal |
| `VersionTree.dfy` | the tree of (key, version) items as its in-order sequence; `Set`, `Delete`, the descending `get` |
| `Transactions.dfy` | point operations, conflict check, publishing and purging, as functions on values, and the invariants they keep |
| `MemoryStore.dfy` | `Datastore` and `BasicTxn`: the mutable objects and their loops, proved to compute those functions |
| `History.dfy` | the commit log, the snapshots it determines, and serial replay of a transaction on a plain map |
| `Runs.dfy` | all runs of begin, point operations, commit, discard and purge, and the invariant they keep |
| `Guarantees.dfy`, `Counterexamples.dfy` | what callers may rely on in every run; runs outside the conditions |
| `Simulation.dfy` | the objects of `MemoryStore` move in step with the machine of `Runs` |
| `Snapshots.dfy`, `Cursors.dfy`, `Seeking.dfy` | what a snapshot iterator should yield, and what its scans, landings and seeks leave to yield |
| `Iterators.dfy`, `IteratorCounterexamples.dfy` | the snapshot iterator; trees outside the conditions |
| `IteratorBounds.dfy` | the bounds derived from iteration options, and what iterators find with them |
| `Merging.dfy`, `TxnIterators.dfy` | the transaction iterator and the laws of its merge |
| `Kv.dfy`, `MemoryContract.dfy` | the store contract of `kv.go`; when the memory store meets it |
| `Namespace.dfy` | the namespace wrapper |
| `ChunkLayout.dfy`, `ChunkStore.dfy`, `ChunkRuns.dfy` | the chunk store and its regrouping iterator; its runs against a plain map |
| `WrapperCounterexamples.dfy` | inputs outside the conditions of the wrappers |

## How the memory store is proved

The number of a version is the number of commits made so far, so the commit log determines
every snapshot: `DbAt(log, d)` is the plain map after `d` commits, and `Logged(log, k, d)`
the item that the last write of `k` left. The central invariant (`Represents`) is that a
lookup of any key at any version returns exactly that item, or nothing if a purge has lost
it, and it says which lookups those are. Conflicts, isolation and serial order are then
statements about the log.

A transaction carries its trace of operations and replies. `ReplaySound` says that on any
map that agrees with what the transaction read, running its operations alone gives the same
replies and the same effect. The start snapshot is such a map (isolation), and after a
passed conflict check so are the contents just before the commit (serial order).

An iterator's state is abstracted to the list that lies ahead of it in the snapshot without
bounds. Each `Next` takes the head of that list, and succeeds if it is in range. As long as
the successes come first, which only a reverse `Seek` can upset, this is the list of what
the iterator has yet to yield, and `Reset`, `Seek` and construction fix it.

The chunk store is described by the contents of its inner store, and a key by what `Get`
reads from them, so that its laws hold for any number of chunks.

## What turned out not to hold

Each of these is kept as the code has it, with a concrete case that shows it and, for all
inputs, the exact condition under which the promise is met.

- **Reads of absent keys are not validated.** They are recorded under the empty key
  (`memory/txn.go:79-83`), so two transactions can each miss the key the other sets and both
  commit (`WriteSkewOnAbsentKeys`). A committed transaction is serial exactly if each key it
  missed is still absent when it commits, or was deleted unseen and then set; all its other
  replies replay in any case (`CommitReplaysExact`, `TrackedIsSerial`).
- **A purge can take an open transaction's snapshot.** In-flight entries are keyed by start
  version alone (`memory/memory.go:205`, `memory/txn.go:241-247`), so discarding one of two
  transactions with the same start unprotects the other (`SharedStartVersion`). Which
  lookups a purge spoils is `PurgedReadsExact`, which replies `SnapshotIsolation`; runs in
  which none is are `ProtectedSnapshots`.
- **A reverse iterator can lose its first key** if that key has a version newer than the
  snapshot (`ReverseHidesLast`, `ReverseStartExact`). With a current snapshot it never does
  (`ReverseMirrors`).
- **Seeking outside the bounds.** A forward `Seek` below the start looks for the start with
  the version of another key and can pass over it (`SeekBelowStart`, `ForwardSeekExact`). A
  reverse `Seek` below every key falls back to the greatest one (`ReverseSeekBelowAll`); it
  can then fail out of range while a later `Next` succeeds (`ReverseSeekResumes`); and under
  an empty prefix it always falls back (`EmptyPrefixSeek`). `ReverseSeekExact` covers all
  three, and `StoreSeekMeetsContract` says when the wrappers get the seek they rely on.
- **A transaction's iterator does not overlay.** A key that was read or written, and is live
  in the snapshot, comes out twice (`ReadKeyTwice`), or comes out although it was deleted
  (`DeletedKeyStays`). `OverlayExact` has the condition.
- **The chunk store needs room for its chunks.** A shrinking overwrite keeps the old tail
  (`ShrinkKeepsTail`), and from the 257th chunk on the chunk keys leave the key's range
  (`TooManyChunks`). `SetExact` has the condition for one set, `RunExact` for whole runs. A
  reverse `Seek` to an all-0xff key misses it (`MaximalChunkKey`, `RegroupSeek`).
- **Maximal byte strings.** `bytesPrefixEnd` returns an all-0xff string unchanged, so the
  memory store finds nothing under such a prefix (`MaximalPrefix`, `PrefixRangeExact`), and
  such a namespace loses an iteration with a start and no end (`MaximalNamespace`,
  `TranslateExact`). An empty inner namespace loses it too when nested
  (`EmptyInnerNamespace`, `NestedOptions`).

The comment at `kv.go:19-20` says that a key equal to the prefix is not yielded; the memory
store yields it, and so does the model.

## Model

| member | source | states |
|---|---|---|
| Bytes.BytesPrefixEnd | memory/iter.go:342-354 | the in-place carry loop computes `PrefixEnd` |
| Bytes.PrefixRange | memory/iter.go:342-354 | for a prefix with a byte below 0xff, the range from it to its end holds exactly its extensions |
| Bytes.PrefixEndTight | memory/iter.go:342-354 | no smaller string bounds all extensions of the prefix |
| Bytes.PrefixRangeExact | memory/iter.go:342-354 | a non-empty prefix has that range if and only if some byte is below 0xff |
| Bytes.PrefixEndConcat | namespace/namespace.go:145-157 | `PrefixEnd(a + b) == a + PrefixEnd(b)` if and only if b has room or a has none |
| VersionTree.SetItemEffect | memory/memory.go:42-54 | a tree write keeps the `byKeys` order and replaces at most the same (key, version) |
| VersionTree.GetIsNewest | memory/memory.go:128-138 | `get` returns the newest item of the key at or below the version, or nothing if there is none |
| Transactions.Refusals | memory/txn.go:43-170 | a closed transaction refuses every operation, a read-only one its sets and deletes, and each one an operation without a key, in this order and leaving `ops` alone; all others get the reply of the lookup, or are done |
| Transactions.PerformWrites | memory/txn.go:43-170 | every operation keeps one write per key at start + 1 and one read marker per key below it; only a set, and the delete of a live key, change the effect |
| Transactions.BufferKeeps | memory/txn.go:152-170 | a buffered write replaces the effect on its key and no other, and leaves all read markers |
| Transactions.LookupKeeps | memory/txn.go:70-85 | a read that reaches the store is remembered in `ops` and changes no effect |
| Transactions.PublishEffect | memory/memory.go:332-341 | commit adds exactly the buffered writes at the new version and alters no older item |
| Transactions.CompactEffect | memory/memory.go:270-309 | the purged tree has exactly the items that no newer version at or below the floor supersedes |
| Transactions.CompactKeepsReads | memory/memory.go:270-309 | reads at or above the floor are unchanged, reads below it are unchanged or lost, and each key keeps one version at or below the floor |
| MemoryStore.Datastore.constructor | memory/memory.go:73-84 | a new store is empty, at version 0, open, with nothing in flight |
| MemoryStore.Datastore.Get | memory/memory.go:141-160 | the live value at the latest version, or the error for a closed store, an empty key or a missing one |
| MemoryStore.Datastore.Has | memory/memory.go:163-178 | whether the key is live at the latest version |
| MemoryStore.Datastore.Set | memory/memory.go:210-231 | commits without conflict, at the next version, exactly one write |
| MemoryStore.Datastore.Delete | memory/memory.go:107-126 | commits without conflict, at the next version, a tombstone if the key was live |
| MemoryStore.Datastore.NewTransaction | memory/memory.go:196-207 | an empty transaction at the latest version, whose start is put in flight |
| MemoryStore.Datastore.Commit | memory/memory.go:320-344 | a conflict leaves the store as it was; otherwise the version grows by one and the writes are published at it |
| MemoryStore.Datastore.ExecutePurge | memory/memory.go:270-309 | the batch loop ends, and leaves the tree compacted to the least start in flight, or to the latest version |
| MemoryStore.Datastore.SupersededBatch | memory/memory.go:278-299 | the scan collects at most 1000 items, only superseded ones, and some unless none is left |
| MemoryStore.BasicTxn.Lookup | memory/txn.go:70-85 | the buffered item or the one at the snapshot, which is then buffered |
| MemoryStore.BasicTxn.Get | memory/txn.go:88-106 | `Perform` of a get; refused, without effect, on a closed store, after commit or discard, and without a key, and never for being read-only |
| MemoryStore.BasicTxn.Has | memory/txn.go:131-149 | `Perform` of a has; refused in the same cases |
| MemoryStore.BasicTxn.Set | memory/txn.go:152-170 | `Perform` of a set; refused, without effect, on a closed store, after commit or discard, in a read-only transaction, and without a key, and done otherwise |
| MemoryStore.BasicTxn.Delete | memory/txn.go:43-68 | `Perform` of a delete, which does nothing for a key that is missing or already deleted; refused in the same cases as a set |
| MemoryStore.BasicTxn.Discard | memory/txn.go:195-203 | empties `ops` and drops the in-flight entry of the start version, once |
| MemoryStore.BasicTxn.Commit | memory/txn.go:206-223 | all outcomes of commit, each of which also discards an open transaction |
| MemoryStore.BasicTxn.CheckForConflicts | memory/txn.go:225-239 | the loop decides whether some key in `ops` has a different version now than at the snapshot |
| History.RecordKeepsReplay | memory/txn.go:43-170 | an operation keeps the law that the transaction is its own serial run on any map that agrees with its reads |
| History.ReplayExact | memory/txn.go:70-85 | a transaction replays on a map that its markers agree with if and only if no key it missed is there, other than one deleted unseen and then set |
| History.ReplyExact | memory/txn.go:70-106 | on such a map each single reply replays if and only if it is not a read that missed a key of the map which the transaction had not written |
| Runs.NewestVersion | memory/txn.go:232-236 | the versions at the snapshot and now differ if and only if a later commit wrote the key, whatever was purged |
| Runs.InstallReads | memory/memory.go:332-341 | a commit leaves all reads at or below the old version, and at the new one shows its effect |
| Runs.PurgeReads | memory/memory.go:270-309 | exactly which lookups a purge loses, in terms of the commit log |
| Runs.StepKeeps | memory/memory.go:320-344 | every step keeps versions within 1..current, unique slots, the shape of `ops`, the tree's agreement with the log, and each commit's replay |
| Runs.RunKeeps | memory/memory.go:270-344 | the invariant holds after every run |
| Guarantees.StepRecorded | memory/txn.go:43-170 | traces and history leave nothing out: every operation performed is recorded with its reply, and every successful commit with its transaction |
| Guarantees.StepOnView | memory/memory.go:320-344 | only a successful commit changes the latest contents, and it applies its whole effect at once |
| Guarantees.PublishOnView | memory/memory.go:332-341 | publishing a transaction applies its effect to the map of live items |
| Guarantees.SetOnView | memory/memory.go:210-231 | what `Datastore.Set` publishes sets the key in the live contents and changes nothing else |
| Guarantees.DeleteOnView | memory/memory.go:107-126 | what `Datastore.Delete` publishes removes the key from the live contents and changes nothing else |
| Guarantees.FirstCommitterWins | memory/txn.go:225-239 | in every run, with any purges, commit conflicts if and only if a transaction committed after the snapshot wrote a key in `ops` |
| Guarantees.TouchedKeysConflict | memory/txn.go:225-239 | every key an operation used counts, unless its reads found nothing stored |
| Guarantees.SnapshotIsolation | memory/txn.go:43-170 | at every point of every run, the next reply to an operation with a key, and to a read if the transaction is read-only, is that of the whole transaction run alone on its start contents, if and only if it is not a read that goes to the tree for a key that a purge took from the snapshot; the earlier replies replay there if their keys are still readable |
| Guarantees.SnapshotKept | memory/memory.go:128-138 | the live items at a version are that snapshot if and only if every key of it is still readable |
| Guarantees.CommitReplaysExact | memory/memory.go:320-344 | run alone just before its commit, a committed transaction gives the same replies and effect if and only if its misses still hold; and each single reply is the same if and only if it is not such a miss |
| Guarantees.SerialOrder | memory/memory.go:320-344 | a run whose misses held equals running its committed transactions one by one in commit order: same replies, same final contents |
| Guarantees.TrackedIsSerial | memory/txn.go:70-85 | every read of a committed transaction that found a stored item, live or deleted, replays just before its commit, whatever else the transaction missed; if all did, the transaction is serial |
| Guarantees.PurgedReadsExact | memory/memory.go:270-309 | a lookup at a snapshot finds its item if and only if there is none or no commit between the snapshot and the highest floor wrote the key; and it is answered rightly if and only if the key is not live there or no such commit wrote it |
| Guarantees.PurgeFloorSafe | memory/memory.go:271-275 | the floor chosen is at most the version and at most every start in flight |
| Guarantees.ProtectedSnapshots | memory/txn.go:241-247 | if no transaction closes while another with its start is open, no open transaction loses its snapshot |
| Guarantees.StoreOpRefinesMap | memory/memory.go:107-231 | in any reachable state, a store-level write commits and acts as on a plain map |
| Guarantees.StoreRunRefinesMap | memory/memory.go:107-231 | store-level writes with purges in between keep the live contents equal to a plain map |
| Counterexamples.WriteSkewOnAbsentKeys | memory/txn.go:79-83 | a run of two committed transactions that no serial order explains |
| Counterexamples.SharedStartVersion | memory/txn.go:241-247 | a run in which a purge changes what an open transaction reads |
| Simulation.Session.BeginTxn | memory/memory.go:196-207 | the objects follow the machine's begin step |
| Simulation.Session.DoOp | memory/txn.go:43-170 | the objects follow the machine's operation step, with its reply |
| Simulation.Session.CommitTxn | memory/txn.go:206-223 | the objects follow the machine's commit step, with its reply |
| Simulation.Session.DiscardTxn | memory/txn.go:195-203 | the objects follow the machine's discard step |
| Simulation.Session.PurgeStore | memory/memory.go:270-309 | the objects follow the machine's purge step at the chosen floor |
| Snapshots.SnapshotIsGet | memory/iter.go:98-191 | the snapshot lists, strictly ascending, exactly the keys in range that `get` finds live, with the items it returns |
| Cursors.AfterScan | memory/iter.go:164-191 | after a scan and a load, the head of what was left is current and the tail is left, past tombstones and past the bounds |
| Cursors.AfterLanding | memory/iter.go:237-340 | the same for a landing of `restart` or `seek` |
| Cursors.WalkAfterScan | memory/iter.go:164-191 | the same for the walk past the bounds: each step moves to the next live key of the snapshot, and succeeds if that is in range |
| Cursors.AlignedDelivers | memory/iter.go:164-191 | from a landing with nothing ahead outside the bound it moves away from, the successful steps come first |
| Seeking.ForwardSeekExact | memory/iter.go:237-310 | forward seek and the calls of `Next` after it yield the snapshot from the sought key on, and then nothing, if and only if there is no live start in range above the sought key whose item is older than the sought key's, or than the snapshot if that is not live |
| Seeking.ForwardSeekInRange | memory/iter.go:237-310 | for a key not below the start, it always does |
| Seeking.ReverseSeekExact | memory/iter.go:252-310 | the same in reverse, for every end bound, if and only if the key below the target is not hidden, or, with none below it, the last item reaches exactly the selected keys that are not above the sought one |
| Seeking.ReverseStartExact | memory/iter.go:98-127 | a reverse iteration is the forward one reversed if and only if its first key is not hidden by a newer version |
| Seeking.ReverseMirrors | memory/iter.go:98-127 | with a snapshot at or above all versions, it always is |
| Iterators.Iterator.Range | memory/iter.go:79-90 | a range iterator is reset and has its whole list to yield |
| Iterators.Iterator.Prefix | memory/iter.go:48-77 | a prefix iterator has the bounds of the prefix; remembering the outermost items changes nothing it yields |
| Iterators.Iterator.Reset | memory/iter.go:92-94 | all is to be yielded again |
| Iterators.Iterator.MoveNext | memory/iter.go:193-212 | one step of the cursor in the direction of iteration |
| Iterators.Iterator.LoadLatestItem | memory/iter.go:317-340 | moves to the last version of the run that the snapshot sees |
| Iterators.Iterator.Scan | memory/iter.go:169-182 | stops on the next key with a version the snapshot sees, and passes over nothing else |
| Iterators.Iterator.StepOn | memory/iter.go:164-191 | one step along what lies ahead, successful if that is in range, from any position; one step along what is left, also when called again at the end |
| Iterators.Iterator.SeekTo | memory/iter.go:237-310 | stops on the head of what lies ahead of the landing, and succeeds if that is in range; if the landing is aligned, the seek list is left to yield |
| Iterators.Iterator.Restart | memory/iter.go:98-127 | leaves the start list to yield, its head being current |
| Iterators.Iterator.Next | memory/iter.go:149-191 | yields what remains one by one and then stays false; after a seek that left the range, takes one step at a time and succeeds if back in range; an error on a closed store |
| Iterators.Iterator.Seek | memory/iter.go:222-230 | as `SeekTo`; an error on a closed store |
| Iterators.Drain | test/action/iterate.go:40-60 | calling `Next` until false collects exactly what remained, and nothing remains |
| Iterators.SeekAndDrain | test/action/iterator.go:37-80 | a seek, and `Next` until it returns false, collects what lies ahead of the landing up to the first item out of range |
| IteratorCounterexamples.SeekBelowStart | memory/iter.go:246-296 | a forward seek below the start that misses a visible start key |
| IteratorCounterexamples.ReverseSeekBelowAll | memory/iter.go:266-280 | a reverse seek below every key that returns the greatest key |
| IteratorCounterexamples.ReverseSeekResumes | memory/iter.go:266-310 | a reverse seek that fails out of range although a later call of `Next` succeeds |
| IteratorCounterexamples.EmptyPrefixSeek | memory/iter.go:257-280 | under an empty prefix a reverse seek starts from the last key |
| IteratorCounterexamples.MaximalPrefix | memory/iter.go:342-354 | under an all-0xff prefix nothing is found, though the prefix is a live key |
| IteratorCounterexamples.ReverseHidesLast | memory/iter.go:106-122 | a reverse iteration that misses a visible key |
| IteratorCounterexamples.ReadKeyTwice | memory/txn.go:340-354 | a transaction iterator that yields a key twice |
| IteratorCounterexamples.DeletedKeyStays | memory/txn.go:340-354 | a transaction iterator that yields a key which the transaction deleted |
| Merging.MergeConserves | memory/txn.go:265-285 | every item of both sides comes out exactly once |
| Merging.MergeOrdered | memory/txn.go:319-357 | the forward merge is in non-decreasing key order |
| Merging.MergeMirrors | memory/txn.go:343-354 | the reverse merge of the reversed sides is the forward merge reversed |
| Merging.TieForward | memory/txn.go:343-354 | forward, the store's item of a key comes right before the transaction's |
| Merging.TieReverse | memory/txn.go:343-354 | in reverse, it comes right after it |
| Merging.ListMembers | memory/txn.go:172-192 | a transaction's forward iterator yields exactly the live items that it has buffered and those that lookups at its start version return, for the keys it looks for |
| Merging.OverlayExact | memory/txn.go:319-357 | for any options, it lists, in strict order, exactly the transaction's point reads if and only if no key it read or wrote is live in its snapshot |
| Merging.ReverseOverlayExact | memory/txn.go:343-354 | the reverse iterator yields the forward list reversed if and only if the last key of its snapshot below the end is not hidden by a newer version |
| IteratorBounds.StartListIsGet | memory/memory.go:233-248 | a new forward iterator at any version, also an old one, lists in order exactly the live items that lookups at that version return for the keys the options select, and nothing under an all-0xff prefix |
| IteratorBounds.OvershootsIs | memory/iter.go:246-296 | when a forward seek goes wrong, in terms of the options and of lookups of the start and of the sought key |
| TxnIterators.StoreIterator | memory/memory.go:233-248 | an iterator of this store over its tree, at the latest version, with the bounds and the direction of the options; or the closed error |
| TxnIterators.TxnIterator.constructor | memory/txn.go:179-191 | one side over `ops` at the transaction's version, one over the store at the start version, both with the bounds and the direction of the options; the list to yield is their merge |
| TxnIterators.NewTxnIterator | memory/txn.go:172-192 | the closed-store error, or such an iterator; forward, its list is the transaction's point reads under exactly the condition of `OverlayExact` |
| TxnIterators.TxnIterator.SelectIterator | memory/txn.go:319-357 | the head of the merge is current and its tail is left |
| TxnIterators.TxnIterator.Next | memory/txn.go:265-285 | yields the merged list one by one and then stays false, although exhausted sides are polled again; from any position, takes the first of the items that the two sides offer |
| TxnIterators.TxnIterator.Seek | memory/txn.go:301-313 | stops on the first of the items that the sides stop on, and keeps the other and any stale key pending; if both sides are aligned, the tail of the merged seek lists is left, and a side without a match adds the item under its cursor if a key was still pending on it |
| TxnIterators.TxnIterator.Reset | memory/txn.go:359-365 | both sides start over and nothing is pending |
| Kv.OrderedUnique | kv.go:15-131 | the iteration contract determines the list |
| Kv.RefStore.Iterator | kv.go:72-73 | a list that meets the contract |
| Kv.ListIterator.Seek | kv.go:118-124 | all entries passed come before the key in the direction of iteration, and the current one does not; if none is left, all came before it |
| MemoryContract.StoreIteratorMeetsContract | memory/memory.go:233-248 | a store iterator yields what the contract says, forward and in reverse, for bounds and for prefixes with room |
| MemoryContract.StoreSeekMeetsContract | memory/memory.go:233-248 | for any options and contents, a seek and the calls after it deliver the contract's list from the sought key on, if and only if a forward seek does not pass over a start that lookups find older than the sought version, a reverse one does not fall back past the sought key, and an all-0xff prefix has nothing left to yield |
| MemoryContract.SeekStore | memory/memory.go:233-248 | the store's own iterator, sought and advanced to its end, collects the contract's entries of the live contents from the sought key on whenever those conditions hold |
| MemoryContract.CurrentMisses | memory/iter.go:252-310 | with a current snapshot, a reverse seek goes wrong exactly if it falls back: no stored key is at or below the sought one, or the end is empty, and a selected key is above it |
| Namespace.TranslateExact | namespace/namespace.go:78-95 | the translated options select exactly the namespaced images of the selected keys if and only if the options are translatable |
| Namespace.IteratorExact | namespace/namespace.go:78-124 | the inner iterator yields only namespaced keys, and stripped they are the iteration of the stripped view, in order |
| Namespace.SeekExact | namespace/namespace.go:130-133 | a seek lands where it would in the stripped list |
| Namespace.NestedContents | namespace/namespace.go:69-75 | wrapping twice shows the same contents as wrapping once with the joined prefix |
| Namespace.NestedOptions | namespace/namespace.go:78-95 | translating twice selects the same keys as translating once if and only if the computed end commutes |
| Namespace.Datastore.Get | namespace/namespace.go:25-36 | the value in the view, or the empty-key error |
| Namespace.Datastore.Has | namespace/namespace.go:38-49 | presence in the view, or the empty-key error |
| Namespace.Datastore.Set | namespace/namespace.go:51-58 | sets the key in the view and touches nothing outside the namespace |
| Namespace.Datastore.Delete | namespace/namespace.go:60-67 | removes the key from the view and touches nothing outside the namespace |
| Namespace.Datastore.Iterator | namespace/namespace.go:78-106 | reassigning the options gives the translation, and the stripped list meets the contract on the view |
| ChunkLayout.JoinSplit | chunk/chunk.go:144-164 | joining the chunks of a value gives the value, and only a first chunk can be empty |
| ChunkLayout.SplitSizes | chunk/chunk.go:152 | every chunk but the last has exactly the chunk size, and the last one at most that |
| ChunkLayout.SplitCount | chunk/chunk.go:144-164 | the number of chunks is the length over the chunk size, rounded up, and one for an empty value |
| ChunkLayout.ChunkKeyAt | chunk/chunk.go:142-162 | chunk i below 256 is stored under the key suffixed with i |
| ChunkLayout.ChunkKeyLimit | chunk/chunk.go:158-162 | from the 257th on, all chunk keys lie above the key's range, or, if nothing is above it, on the last chunk key |
| ChunkLayout.OverwriteExact | chunk/chunk.go:139-172 | the chunks that survive a set join to the value if and only if it has at most 256 chunks, and no fewer than the one replaced |
| ChunkLayout.StoredExact | chunk/chunk.go:139-172 | a set of at most 256 chunks writes chunk i under suffix i and changes nothing else, whatever is stored |
| ChunkLayout.SetReadsBack | chunk/chunk.go:139-172 | what a key reads as after a set of any number of chunks over any old ones |
| ChunkLayout.GetExact | chunk/chunk.go:85-120 | a store that holds chunks reads as the map of the joined values |
| ChunkLayout.DeleteExact | chunk/chunk.go:174-213 | after a delete every key reads as in the plain map without that key |
| ChunkLayout.SetExact | chunk/chunk.go:139-172 | after a set every key reads as in the plain map if and only if the value has at most 256 chunks, and no fewer than the one replaced |
| ChunkStore.Chunkstore.constructor | chunk/chunk.go:34-69 | takes the key length from the least key of the inner store, which is right for any store that holds chunks |
| ChunkStore.Chunkstore.Get | chunk/chunk.go:85-120 | for any key and contents, the joined values of all extensions of the key in order, or none |
| ChunkStore.Chunkstore.Has | chunk/chunk.go:122-137 | for any key and contents, whether some key extends it |
| ChunkStore.Chunkstore.Set | chunk/chunk.go:139-172 | for any key and any number of chunks, writes chunk after chunk under the chunk keys, no inner value longer than the chunk size, and sets the key length once |
| ChunkStore.Chunkstore.Delete | chunk/chunk.go:174-213 | for any key and contents, removes exactly the extensions of the key |
| ChunkStore.Chunkstore.Iterator | chunk/chunk.go:215-226 | an inner iterator with the same options, and whole values within bounds no longer than the keys to be regrouped from it |
| ChunkStore.RegroupExact | chunk/chunk.go:254-295 | grouping an inner list gives each whole key once, in order, with its chunks joined in ascending order, in both directions |
| ChunkStore.RegroupSeek | chunk/chunk.go:305-328 | after a seek grouping gives the whole values from the sought key on, if and only if it is not a reverse seek to a listed key that is all 0xff |
| ChunkStore.ChunkIterator.Next | chunk/chunk.go:254-295 | yields the head of the grouping and leaves its tail |
| ChunkStore.ChunkIterator.Seek | chunk/chunk.go:305-328 | yields the first group from where the inner seek lands; if that fails, a chunk pending from before is left for `Next` |
| ChunkStore.ChunkIterator.Reset | chunk/chunk.go:245-252 | the whole inner list is to be grouped again |
| ChunkRuns.RunExact | chunk/chunk.go:139-213 | every key reads as in a plain map after every call of a run if and only if no set has more than 256 chunks or fewer than the value it replaces |
| ChunkRuns.FirstMisfitShows | chunk/chunk.go:139-172 | the first set that does not fit makes some key read wrong at once |
| ChunkRuns.Make | chunk/chunk.go:34-213 | any call on the object changes the inner contents as the run's step says; reopening finds the key length |
| ChunkRuns.Replay | chunk/chunk.go:34-213 | any run of sets, deletes and reopenings ends with the inner contents that the run's steps give; if all calls on an empty store fit, every key then reads as in the plain map |
| WrapperCounterexamples.MaximalNamespace | namespace/namespace.go:83-95 | an all-0xff namespace that loses every key of an iteration with a start and no end |
| WrapperCounterexamples.EmptyInnerNamespace | namespace/namespace.go:83-95 | an empty inner namespace that loses a key of such an iteration |
| WrapperCounterexamples.ShrinkKeepsTail | chunk/chunk.go:139-172 | a shorter value that reads back with the tail of the longer one before it |
| WrapperCounterexamples.TooManyChunks | chunk/chunk.go:152-163 | a value of 257 chunks that reads back as another one, and brings up a key that was never set |
| WrapperCounterexamples.MaximalChunkKey | chunk/chunk.go:305-319 | a reverse seek to an all-0xff key that misses it |

## Left out

- badger, leveldb, badger_ffi and blockstore: adapters over engines and libraries that are not part of this model.
- Concurrency: commit is one step, and no transaction begins between the version increment and the publishing of the writes (`memory/memory.go:333-341`); locks, goroutines and context cancellation are not modelled.
- Time: `clearOldInFlightTxn` is the set of expired start versions that `Discard` and `Commit` take as an argument; in runs no entry expires, and a purge may happen at any point and to any floor up to the version.
- The B-tree: its cursor is an index that stays in place at both edges, a failed seek leaves it on the last item, and the tree does not change during an iteration. The defect of `Prev` that `memory/iter_test.go` documents is not modelled; the work-around for it is.
- `Close` in runs: the closed flag is modelled in the objects; runs are those of an open store.
- `DropAll` in runs: it clears the history that snapshots rely on.
- `GetSize`: as `Get`, with the length of the value.
- Iterators inside transactions are not tracked for conflicts by the code, and do not appear in traces.
- Version overflow, and aliasing of byte slices by callers.
- `KeysOnly`, which the memory store ignores, and the context-carried transactions of `txn.go`, which only dispatch.
- `NewSized`: it only stores the given key length.
- ChunkStore.Chunkstore.Set: requires a chunk size of at least one; with zero the code panics.
- ChunkStore.Chunkstore.Iterator: requires that the inner store holds chunks of keys of the store's length, without which the code panics or mixes keys (`chunk/chunk.go:20`); so do `ChunkLayout.SetExact` and `ChunkRuns.RunExact`, and `ChunkRuns.RunExact` uses one chunk size throughout.
