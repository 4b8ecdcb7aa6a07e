# Verification models for Cloudreve

These Dafny modules model the stateful core of Cloudreve, a self-hosted file service, and prove what its
operations keep over every call and every run.

- **WebDAV locks** (`Names`, `LockTable`, `LockLaws`, `LockRuns`, `ExpiryHeap`, `MemLS`, `LockClients`).  `LockTable` describes
  the lock system as a map from tokens to locks, one function for each operation.  `LockLaws` says what they mean: when a lock
  is there, until when, and what a call leaves alone.  `LockRuns` proves exclusivity over all runs of these functions.  The class `MemLockSystem.MemLS` has the three indexes of the code - name tree with reference counts,
  token map, expiry heap with back-indices - and each of its methods is proved to keep them consistent and to do
  exactly what its function says; `LockClients` proves that every run of the class, with the release functions that it
  hands out, is a run of `LockRuns`.  `ExpiryHeap` is `container/heap` on top of the file's own `Less`, `Swap`, `Push`, `Pop`.
- **Chunked upload** (`ChunkGroup`, `ChunkReceiver`, `ChunkFailures`).  The sender with its retries, seeks and retry buffer; the
  receiver with every fault that can hit a request.  The theorems are about all sequences of accepted, rejected, repeated,
  broken and canceled chunks, and about what each failure leaves behind.
- **File tree and storage accounting** (`FileRows`, `Folders`, `FolderCopy`, `Accounts`, `CopyContents`, `Delete`,
  `FolderPaths`).  Tables are maps from ids to rows with the two unique indexes; the loops of the code run over them.
- **Embedded static files** (`EmbedFS`): binary searches against a linear scan.
- **If headers** (`IfHeader`, `IfGrammar`): lexer and recursive-descent parser against a printer, and against a grammar of all
  spellings.
- **Nodes and downloads** (`Heartbeat`, `NodePool`, `NodeLiveness`, `Monitor`): liveness of slave nodes, the pool with its
  feature index and round robin, the two together, and the offline-download monitor.

`Common` holds stock types.  `dafny verify dfyconfig.toml` checks everything.

## What turned out not to hold

The code is modelled as it is.  Where a natural claim is false of it, the project has the exact condition.

- A canceled chunk truncates the file to where it starts.  If the file is shorter than that - an earlier chunk was re-sent
  and broke - it is filled up with zeros, and the upload can finish with them (`ChunkReceiver.DiskIsAlwaysAPrefixExactly`,
  `ChunkReceiver.CanceledChunkCorrupts`).
- A size update whose commit fails is put back although it was never stored, which lowers the owner's storage
  (`ChunkReceiver.StorageIsConservedExactly`, `ChunkReceiver.FailedCommitChargesTwice`).
- A failing first chunk that leaves a file behind can never be replaced: chunk 0 is written without the overwrite mode, so
  every retry is refused (`ChunkReceiver.FirstChunkFailsExactly`, `ChunkReceiver.BrokenFirstChunkIsFinal`).
- `MoveFolderTo` lets a folder move below itself, which cuts its subtree off the root
  (`Folders.CheckedMoveKeepsForestExactly`, `Folders.MoveIntoOwnChild`).
- `UpdateSize` with a stale row charges the wrong difference (`FileRows.UpdateSizeBalancesExactly`,
  `FileRows.StaleSizeUnbalances`).
- A `Copy` that fails half-way leaves copies that nobody is charged for (`Accounts.FileSystem.Copy`,
  `Accounts.HalfWayCopyUnbalances`).
- Deleting all rows of a shared object at once leaves the object behind (`Delete.OrphansExactly`,
  `Delete.LinksDeletedTogether`).
- A deletion removes objects before its transaction, and a file that is given by its id and also lies in a given folder
  makes that fail (`Delete.RollbackLosesExactly`, `Delete.TargetListedTwice`).
- A status event for a node that is not pooled leaves a nil entry (`NodePool.Pool.NodeStatusChange`).
- The monitor's clean-up does not wait for a running transfer (`Monitor.FilesVanishUnderTransferExactly`).

## Model

| member | source | states |
|---|---|---|
| Names.AncestorsAreCoverers | pkg/webdav/lock.go:352-366 | walkToRoot visits exactly the names that lookup's prefix test accepts as equal to or above the name |
| Names.CoverersComparable | pkg/webdav/lock.go:192-210 | of two names above a common name one is above the other: names form a tree |
| Names.SlashCleanIdempotent | pkg/webdav/file.go:19-24 | slashClean leaves what it returns unchanged, for every string |
| Names.DecimalInjective | pkg/webdav/lock.go:133-136 | different counters give different tokens |
| Names.DecimalIsRead | pkg/webdav/lock.go:133-136 | a token is the decimal numeral of its counter: reading it gives the counter back |
| LockTable.ConflictIsSharedName | pkg/webdav/lock.go:291-313 | two locks conflict if and only if some clean name would be locked by both (section 6 of RFC 4918) |
| LockTable.AtMostOneLockPerName | pkg/webdav/lock.go:291-313 | in a table without conflicts each name is covered by at most one lock |
| LockTable.NextTokenIsNew | pkg/webdav/lock.go:133-136 | the next token was never issued before, and stays issued |
| LockTable.HeldLocksStay | pkg/webdav/lock.go:138-145 | expiry, Refresh and Unlock neither drop nor change a held lock, nor hold another |
| LockTable.CreateKeeps | pkg/webdav/lock.go:232-250 | Create keeps exclusivity, clean roots, issued tokens and the deadline rule, and its token is new |
| LockTable.RefreshKeeps | pkg/webdav/lock.go:252-273 | Refresh keeps that invariant |
| LockTable.UnlockKeeps | pkg/webdav/lock.go:275-289 | Unlock keeps that invariant |
| LockTable.ConfirmKeeps | pkg/webdav/lock.go:147-185 | Confirm keeps that invariant, whether it succeeds or not |
| LockTable.LookupFindsTheLock | pkg/webdav/lock.go:192-210 | lookup finds a lock if and only if a condition names a free lock over the resource, and that lock is the only one over it |
| LockTable.ConfirmFailsExactly | pkg/webdav/lock.go:147-185 | a failing Confirm holds nothing; Confirm succeeds if and only if each named resource has a free lock among the conditions |
| LockLaws.CoversIsPrefix | pkg/webdav/lock.go:192-210 | the prefix test on clean names is the prefix relation on their elements |
| LockLaws.SlashCleanSteps | pkg/webdav/file.go:19-24 | what one more element does to a cleaned name: nothing, a step up that ends at the root, or a step down |
| LockLaws.SlashCleanStarts | pkg/webdav/file.go:19-24 | a first element is a step below the root, or none |
| LockLaws.CoversExactly | pkg/webdav/lock.go:192-210 | a zero-depth lock covers its root; another one covers exactly the names from which walkToRoot comes past its root |
| LockLaws.ExpiryKeepsExactly | pkg/webdav/lock.go:138-145 | a lock survives expiry if and only if it is held, infinite, or its deadline is later than now; it does not change |
| LockLaws.CreateGivesALock | pkg/webdav/lock.go:232-250 | Create succeeds if and only if no live lock shares a name with the wanted one; then there is a new token, and its lock has the cleaned root, the depth and owner asked for, is not held, and is alive at a time if and only if it is infinite or its duration has not passed; no other lock changes, and a refusal only expires |
| LockLaws.RefreshRenews | pkg/webdav/lock.go:252-273 | Refresh of a live, free lock gives it the new duration from now on and changes no other lock; otherwise it only expires, with the error of its cause |
| LockLaws.UnlockRemoves | pkg/webdav/lock.go:275-289 | Unlock of a live, free lock takes exactly this lock away; otherwise it only expires, with the error of its cause |
| LockLaws.UnlockMakesRoom | pkg/webdav/lock.go:275-289 | after it a lock that was refused because of this one alone can be created |
| LockLaws.ConfirmHolds | pkg/webdav/lock.go:147-185 | Confirm holds exactly the free locks over the wanted names that a condition names, and changes nothing else about any lock |
| LockLaws.ReleaseFrees | pkg/webdav/lock.go:173-184 | a release frees exactly the locks of its claim, and undoes the Confirm |
| LockRuns.StepKeepsInvariant | pkg/webdav/lock.go:147-289 | every operation keeps the table invariant and that pending release functions hold disjoint, held locks over their names |
| LockRuns.RunsAreSafe | pkg/webdav/lock.go:147-289 | in every state of every run no resource is locked twice and the held locks are exactly those of pending releases |
| LockRuns.ClaimedLocksDoNotChange | pkg/webdav/lock.go:147-185 | from a Confirm to its release the locks it holds are never expired, refreshed, removed or changed, whatever else runs |
| LockRuns.ConfirmedNameIsExclusive | pkg/webdav/lock.go:147-185 | until release, any other Confirm that asks for a name already confirmed fails and holds nothing |
| LockRuns.ConfirmExcludes | pkg/webdav/lock.go:147-185 | over all runs of calls: from a Confirm that succeeds to its release every other Confirm fails that asks for one of its names, in any spelling |
| ExpiryHeap.RootIsEarliest | pkg/webdav/lock.go:138-145 | the first heap entry has the earliest expiry, so the expiry loop may stop at it |
| ExpiryHeap.SwapUp | pkg/webdav/lock.go:392-400 | one step of sifting up moves the only broken edge up |
| ExpiryHeap.SwapDown | pkg/webdav/lock.go:392-400 | one step of sifting down moves the only broken edges down |
| ExpiryHeap.ByExpiry.Push | pkg/webdav/lock.go:402-406 | heap.Push adds the node, keeps heap order and all back-indices |
| ExpiryHeap.ByExpiry.Remove | pkg/webdav/lock.go:408-415 | heap.Remove takes out exactly the node at the index, resets its back-index, keeps heap order and the others |
| MemLockSystem.MemLS.BlockedMeansConflict | pkg/webdav/lock.go:291-313 | a node that canCreate refuses on the way to the root means a conflicting lock |
| MemLockSystem.MemLS.ConflictMeansBlocked | pkg/webdav/lock.go:291-313 | a conflicting lock, above or below, shows up at some node on the way to the root |
| MemLockSystem.MemLS.CanCreate | pkg/webdav/lock.go:291-313 | the walk over the name tree allows the lock if and only if no lock conflicts with it |
| MemLockSystem.MemLS.AddNames | pkg/webdav/lock.go:315-334 | create adds exactly the missing ancestors and raises the reference count of each ancestor-or-self by one |
| MemLockSystem.MemLS.Remove | pkg/webdav/lock.go:336-350 | remove takes the lock, the names only it needed and its heap entry away, and all three indexes stay consistent |
| MemLockSystem.MemLS.CollectExpiredNodes | pkg/webdav/lock.go:138-145 | terminates, and removes exactly the locks that are not held and expire by now; the held locks keep their nodes |
| MemLockSystem.MemLS.Lookup | pkg/webdav/lock.go:192-210 | returns the node of the first usable condition's lock, or nil if there is none |
| MemLockSystem.MemLS.Hold | pkg/webdav/lock.go:212-220 | marks exactly this lock as held and takes it out of the heap if it was there |
| MemLockSystem.MemLS.Unhold | pkg/webdav/lock.go:222-230 | frees exactly this lock and puts it back into the heap if it expires |
| MemLockSystem.MemLS.Confirm | pkg/webdav/lock.go:147-185 | table and result are those of the specification; the nodes in the release handle join those that were held before, which stay |
| MemLockSystem.MemLS.Release | pkg/webdav/lock.go:173-184 | the release function frees exactly the locks that its Confirm held, and no other held lock changes its node |
| LockClients.Clients.Release | pkg/webdav/lock.go:173-184 | whatever was called since its Confirm, a release function finds its nodes held, and takes the step of the specification |
| LockClients.Clients.Perform | pkg/webdav/lock.go:147-289 | each call is the step of the run, and all captured nodes stay usable |
| LockClients.Clients.Run | pkg/webdav/lock.go:147-289 | any sequence of calls of the class is a run of the specification, apart from repeated calls of a release function |
| MemLockSystem.MemLS.Create | pkg/webdav/lock.go:232-250 | table, counter and result are those of the specification: ErrLocked if and only if a live lock conflicts |
| MemLockSystem.MemLS.Refresh | pkg/webdav/lock.go:252-273 | table and result are those of the specification, for unknown, held and free tokens, finite and infinite durations |
| MemLockSystem.MemLS.Unlock | pkg/webdav/lock.go:275-289 | table and result are those of the specification, for unknown, held and free tokens |
| IfHeader.NextToken | pkg/webdav/if.go:133-173 | the scanning loops of lex return the specified token and a rest that is shorter unless the input ended |
| IfHeader.ReadList | pkg/webdav/if.go:83-103 | the loop of parseList, which ends on every input, agrees with the recursive grammar |
| IfHeader.ReadNoTagLists | pkg/webdav/if.go:40-52 | the loop of parseNoTagLists agrees with the recursive grammar |
| IfHeader.ReadTaggedLists | pkg/webdav/if.go:54-81 | the loop of parseTaggedLists, with its current tag, agrees with the recursive grammar |
| IfHeader.ReadIfHeader | pkg/webdav/if.go:28-38 | the header parser agrees with the recursive grammar on every string |
| IfHeader.ParserUndoesPrinter | pkg/webdav/if.go:28-173 | every well-formed list of tagged or untagged lists prints to a header that parses back to it (section 10.4 of RFC 4918) |
| IfHeader.ParsedHeadersAreTheWellFormedOnes | pkg/webdav/if.go:28-173 | the parser can return a structure if and only if it is not empty and well formed |
| IfGrammar.LexExactly | pkg/webdav/if.go:133-173 | the lexer returns a token if and only if the string spells it after blanks, words ending before a blank, bracket or parenthesis |
| IfGrammar.ParsesExactly | pkg/webdav/if.go:28-173 | a header parses to a structure if and only if it spells it in the grammar of section 10.4 of RFC 4918, with any blanks between tokens, words without brackets, and tags that govern all lists up to the next tag |
| IfGrammar.SpaceExactly | pkg/webdav/if.go:28-38 | the white space that is trimmed around a header |
| ChunkGroup.ChunksTile | pkg/filesystem/chunk/chunk.go:32-56 | chunks are consecutive, start at 0 and end at the size, also for an empty file, chunk size 0 and exact multiples |
| ChunkGroup.EveryByteInOneChunk | pkg/filesystem/chunk/chunk.go:123-167 | each byte of the file lies in exactly one chunk |
| ChunkGroup.ChunkEnd | pkg/filesystem/chunk/chunk.go:155-162 | no chunk has a negative length or ends after the file |
| ChunkGroup.ChunkGroup.Offer | pkg/filesystem/chunk/chunk.go:69-100 | one attempt: a processor that reads its whole chunk gets exactly the chunk's bytes, and the retry buffer is usable exactly when it can stand in for the stream |
| ChunkGroup.ChunkGroup.Process | pkg/filesystem/chunk/chunk.go:69-120 | ends after at most Max+1 attempts; succeeds if and only if the attempts lead there; success means that the last attempt was given exactly the chunk; failure has one of four named reasons |
| ChunkGroup.SucceedsExactly | pkg/filesystem/chunk/chunk.go:96-116 | a chunk is sent if and only if one of the first Max+1 attempts is done and all before it failed in a way that can be repeated |
| ChunkGroup.RetriesExactly | pkg/filesystem/chunk/chunk.go:69-120 | that is: no attempt before it was canceled, a seekable source sought back after each, and another one had a whole copy from the first |
| ChunkGroup.SendAll | pkg/filesystem/driver/remote/client.go:101-109 | the loop ends well if and only if every chunk succeeds; then what the successful attempts were given concatenates to the whole file, and otherwise to a prefix of it |
| ChunkReceiver.Receiver.PutBody | pkg/filesystem/driver/local/handler.go:89-158 | append mode of Put: the resulting file for every start, size and fault |
| ChunkReceiver.Receiver.RunHooks | pkg/filesystem/hooks.go:282-319 | hooks after a chunk, and the truncating hooks if one of them fails, in the order in which they are registered, with the size that the row in hand has by then |
| ChunkReceiver.Receiver.LocalUpload | service/explorer/upload.go:77-217 | state and reply for every request: session, index, length and quota checks, then Put, then the hooks; a canceled request that fails truncates the file |
| ChunkReceiver.LastChunkEndsTheFile | service/explorer/upload.go:155-169 | the expected length of the last chunk does not wrap around and ends with the file |
| ChunkReceiver.PutKeepsPrefix | pkg/filesystem/driver/local/handler.go:94-157 | a matching slice of the source, written fully or in part, leaves a prefix of the source on disk |
| ChunkReceiver.HandleKeepsExactly | service/explorer/upload.go:110-217 | one request, however it ends, keeps the file a prefix and the finished file complete, if and only if it is not a canceled one that fills the file up with wrong zeros |
| ChunkReceiver.DiskIsAlwaysAPrefixExactly | service/explorer/upload.go:110-217 | over every sequence of requests the file is always a prefix of the source if and only if there is no such request |
| ChunkReceiver.FinishedFileIsTheSource | pkg/filesystem/hooks.go:309-319 | in such a run, once the placeholder is popped, file and row size are those of the whole source |
| ChunkReceiver.CanceledChunkCorrupts | pkg/filesystem/upload.go:123-151 | a run of five requests that finishes an upload with a zero in it |
| ChunkReceiver.StorageFollowsRowExactly | models/file.go:291-319 | a request changes storage exactly as the row, if and only if it does not put back a size whose commit failed |
| ChunkReceiver.StorageIsConservedExactly | pkg/filesystem/hooks.go:293-306 | the same over every sequence of requests |
| ChunkReceiver.FailedCommitChargesTwice | models/file.go:317-318 | a request that lowers the owner's storage and leaves the row |
| ChunkReceiver.RunsKeepQuota | pkg/filesystem/hooks.go:94-100 | no sequence of requests lifts storage above the larger of the old storage and the quota |
| ChunkReceiver.AcceptedExactly | service/explorer/upload.go:77-217 | a request is accepted if and only if it passes the checks, nothing fails and the disk holds everything before it; a first chunk needs an absent file |
| ChunkReceiver.AcceptedChunkIsStored | pkg/filesystem/hooks.go:293-319 | an accepted chunk ends disk and row where it ends, and the last one makes the placeholder a file |
| ChunkReceiver.FirstChunkFailsExactly | pkg/filesystem/hooks.go:282-319 | a first request that fails leaves a file and a row of size zero if and only if it got as far as opening the file, and its hooks did not store a new size without putting the old one back |
| ChunkReceiver.BrokenFirstChunkIsFinal | pkg/filesystem/driver/local/handler.go:94-99 | from then on no request, of any sequence whose offsets do not wrap around to zero, is accepted or changes more than the file |
| ChunkReceiver.SenderAndReceiverAgree | pkg/filesystem/chunk/chunk.go:123-167 | start, length and last-chunk test of sender and receiver agree for every index |
| ChunkReceiver.ChunkArrives | service/explorer/upload.go:153-217 | the next chunk of a faultless sender within the quota is accepted |
| ChunkReceiver.SenderFillsTheFile | service/explorer/upload.go:110-217 | a faultless run of all chunks ends with the whole source on disk, in the row and in the storage |
| ChunkFailures.RefusedExactly | service/explorer/upload.go:77-185 | each refusal has its condition, in the order session, index, length, quota, and changes nothing |
| ChunkFailures.FailedHooksUndo | pkg/filesystem/hooks.go:282-319 | a stored chunk whose hooks fail is cut off where it starts, unless that fails; row and storage afterwards, in numbers, for each way to fail |
| ChunkFailures.RetryAfterHooks | service/explorer/upload.go:187-191 | sent again with nothing failing it is accepted if and only if the quota still allows it, and then disk and row end where it ends |
| ChunkFailures.FailedPutLeaves | pkg/filesystem/driver/local/handler.go:94-157 | a chunk that cannot be stored leaves row, session and storage; what the file then has, for each way to fail and for canceled requests |
| ChunkFailures.RetryAfterPut | pkg/filesystem/driver/local/handler.go:94-157 | sent again it is accepted if and only if the file has everything before it, or for the first chunk if there is no file |
| FileRows.UsedWithout | models/file.go:232-263 | what a user has stored goes down by the size of a row that is taken away, whichever order rows are added up in |
| FileRows.DeleteKeepsBalance | models/file.go:232-263 | taking rows away and charging their sizes back keeps every user's storage equal to the sum of the files |
| FileRows.ResizedExactly | models/file.go:291-319 | a size update changes no row but the one in hand, only if that still has the size in hand, and only its size |
| FileRows.UpdateSizeBalancesExactly | models/file.go:291-319 | UpdateSize keeps that balance if and only if the row in hand has the size of the row in the table, or that size does not change |
| FileRows.MovedExactly | models/folder.go:181-195 | a move takes exactly the given files of the user out of the one folder into the other, and changes nothing else about any file |
| FileRows.UniqueExactly | models/file.go:14-36 | the unique indexes: one file of a name for each user and folder, one file for each upload session |
| FileRows.TakenExactly | models/file.go:14-36 | a row is refused if and only if it would break one of them |
| FileRows.StaleSizeUnbalances | models/file.go:304-310 | two updates with one row in hand, after the second of which the books are wrong |
| FileRows.CopyKeepsBalance | models/folder.go:145-199 | new rows charged to their owner keep the balance |
| FileRows.UsedDependsOnShares | models/folder.go:181-195 | rows that keep owner and size leave all sums as they are |
| FileRows.Database.Create | models/file.go:44-61 | the row is inserted and charged, or neither; duplicates of a name in a folder are refused; the balance holds |
| FileRows.Database.DeleteFiles | models/file.go:232-263 | all rows go and are charged back, or nothing changes; balance holds; a row that is missing or another user's fails it |
| FileRows.Database.UpdateSize | models/file.go:291-319 | the row with this id gets the new size if it has the size in hand, and the owner is charged the difference to the size in hand, or neither; the row in hand has the new size even if the commit fails |
| FileRows.Database.MoveFiles | models/folder.go:181-195 | moves the user's files out of exactly this folder, or none on a name clash; the balance holds |
| FileRows.TakenAmong | models/file.go:14-36 | the name of a copy is taken if and only if a file that was there, or an earlier copy, has it |
| FileRows.Database.CopyRows | models/folder.go:145-180 | copies up to the first row that can be copied and whose copy the database or the unique index refuses, and all rows if there is none; returns the size of the copies |
| Accounts.FileSystem.CopySource | models/folder.go:145-273 | a folder and then files: what is copied and where it stops, in terms of the tables before |
| Accounts.FileSystem.Copy | pkg/filesystem/manage.go:60-94 | books and result; a failing Copy keeps the balance if and only if what it copied before the first refusal has no size |
| Accounts.FileSystem.SaveTo | pkg/filesystem/manage.go:438-467 | charges what was copied, also on failure, so the balance holds |
| Accounts.FileSystem.Move | pkg/filesystem/manage.go:97-121 | folders, then files: tables and result for every input; the balance holds |
| Accounts.CompletesExactly | models/folder.go:145-273 | a copy succeeds if and only if no insertion of a folder or file on its course is refused |
| Accounts.FileSystem.Perform | pkg/filesystem/manage.go:60-121 | every operation has the effect on folders and books that the runs are made of; result and size of a copy follow from the tables before and the refused insertions |
| Accounts.StepKeepsExactly | models/user.go:98-119 | a step keeps every user's storage equal to the sum of the files, if and only if it is no size update from a stale row, and no Copy of which an insertion is refused after files of some size were copied |
| Accounts.RunsKeepTheBooks | models/user.go:98-119 | over any run of creations, deletions, size updates, copies, savings and moves the books are always balanced if and only if there is no such step |
| Accounts.HalfWayCopyUnbalances | pkg/filesystem/manage.go:82-92 | a Copy of two files that fails at the second and leaves the first uncharged |
| CopyContents.CopyIsAccounted | models/folder.go:145-270 | whatever stopped it, what a copy adds are copies of the first rows that it lists, one of each that no upload writes to: name, source, policy, size and session of the original, the new owner, and the copy of its folder or the destination; if it succeeds none is missing; old rows stay |
| CopyContents.WhatIsCopied | models/folder.go:145-270 | the rows listed are exactly the owner's files at or below the copied folder, and the given files of the owner in the given folder |
| CopyContents.FilePartSucceedsExactly | models/folder.go:145-180 | files are all copied if and only if the database refuses none and the destination has no file of such a name |
| CopyContents.FolderPartSucceedsExactly | models/folder.go:203-270 | a folder is copied if and only if the database refuses nothing and the destination has no folder of its name |
| CopyContents.CopiesShareObjects | models/folder.go:165-170 | if every file had its physical object before a copy, every file, new or old, has it afterwards |
| Folders.MoveKeepsForestExactly | models/folder.go:277-297 | re-parenting folders keeps every folder connected to a root if and only if none of them is the destination or above it |
| Folders.MovedFoldersExactly | models/folder.go:277-297 | a move gives the new parent to exactly the given folders of the owner in the source folder, and changes nothing else |
| Folders.CheckedMoveKeepsForestExactly | models/folder.go:277-297 | with the check that the code makes, if and only if no moved folder lies strictly above the destination |
| Folders.MoveIntoOwnChild | models/folder.go:279-283 | a move that the check accepts and that cuts a folder off the root |
| Folders.LevelsAreApart | models/folder.go:83-128 | below folders that are not nested no folder is on two levels |
| Folders.NextLevelAppends | models/folder.go:108-125 | appending a level keeps parents first and adds no duplicate |
| Folders.ListingIsComplete | models/folder.go:83-128 | once a level is empty, or 65535 levels have been read, everything below is listed |
| Folders.BelowExactly | models/folder.go:83-128 | what is listed is what a way up over folders of this user leads from to a given one |
| Folders.GetRecursiveChildFolder | models/folder.go:83-128 | lists exactly the user's folders at or below the given ones in trees of up to 65535 levels, parents first, each once if they are not nested |
| FolderCopy.IsomorphicGrows | models/folder.go:215-245 | one more copied folder extends the correspondence of original and copy |
| FolderCopy.LevelsOfTheCopy | models/folder.go:203-273 | level by level, the tree below the copy is the image of the tree below the original and nothing else, even for a copy into itself |
| FolderCopy.PathsOfTheCopy | models/folder.go:213-245 | the same names lead to a copy below the copied folder as to its original below the original; owner, name and place of the copied folder |
| FolderCopy.Tree.MoveFolderTo | models/folder.go:277-297 | moves only direct children of the source, or nothing; the table stays a forest if and only if the move fails or no moved folder is above the destination |
| FolderCopy.SlotOfCopy | models/folder.go:215-245 | only the topmost copy can find its name taken |
| FolderCopy.Tree.CopyFolders | models/folder.go:213-245 | the branch for a missing parent is never taken; copies up to the first folder that the database refuses or whose topmost name is taken, with an injective map to new folders with mapped parents, old rows untouched |
| FolderCopy.NoNameIsTaken | models/folder.go:247-270 | in the copied folders the unique index never refuses a file |
| FolderCopy.Tree.CopyFolderTo | models/folder.go:203-273 | success copies exactly the folders below the source, one copy of each complete file in the copy of its folder, and returns the size copied; it fails if and only if the database refuses an insertion or the topmost name is taken, and then leaves exactly the copies made before |
| Delete.RemoveFilesWithSoftLinks | models/file.go:187-229 | returns exactly the files whose source and policy no other row uses |
| Delete.GroupFileByPolicy | pkg/filesystem/file.go:221-236 | each file is in the group of its policy and in no other |
| Delete.FileSystem.DriverDelete | pkg/filesystem/driver/local/handler.go:174-194 | removes the objects it can and reports exactly those that are there and stay |
| Delete.FileSystem.DeleteGroupedFile | pkg/filesystem/file.go:173-218 | removes all removable objects of all groups and reports exactly what failed, all of a policy without a driver |
| Delete.RemovedWithItsRow | pkg/filesystem/manage.go:148-180 | a row that uses a removed object is deleted in the same call |
| Delete.SoftLinksAreSafe | pkg/filesystem/manage.go:148-180 | every row that is left and had its object still has it |
| Delete.RollbackLosesExactly | pkg/filesystem/manage.go:158-180 | without a commit, rows are left without objects if and only if a removable object had a target as its only user |
| Delete.ObjectsGoExactly | models/file.go:187-229 | an object is removed if and only if a target has its policy and source, no other row does, and its driver can remove it |
| Delete.RowsGoExactly | pkg/filesystem/manage.go:148-180 | a target's row goes unless its object was tried and could not be removed, and even then if the deletion is forced |
| Delete.DeletableExactly | models/file.go:232-263 | the rows can be deleted if and only if no file in the given folders is someone else's or also given by its id |
| Delete.TargetListedTwice | pkg/filesystem/manage.go:133-180 | a file given twice: its object is removed and its row cannot be deleted |
| Delete.OrphansExactly | models/file.go:187-229 | an object outlives all its rows if and only if all are deleted together and there were at least two, or the deletion is forced and the object cannot be removed |
| Delete.LinksDeletedTogether | models/file.go:187-229 | two rows of one object that are deleted and leave it behind |
| Delete.ListedFoldersAreClosed | pkg/filesystem/manage.go:218-243 | the folders to delete contain every folder whose parent is one of them |
| Delete.FileSystem.ListTargets | pkg/filesystem/manage.go:126-146 | targets are the folders below the given ones without the root, all files in them, and the user's given files |
| Delete.FileSystem.Delete | pkg/filesystem/manage.go:124-215 | which result occurs, and objects, rows, folders and storage after each; surviving rows keep objects, nothing points to a deleted folder, folders go only with all their files, balance holds |
| FolderPaths.PathNamesOneFolder | models/folder.go:36-47 | with unique siblings and one root per user a path names one folder at most |
| FolderPaths.TracedPath | models/folder.go:50-67 | a folder's traced position joined with its name is the clean path of its ancestors' names |
| FolderPaths.TracedPathLeadsBack | models/folder.go:50-67 | round trip: the only folder that the traced path of a folder names is that folder |
| FolderPaths.IsPathExist | pkg/filesystem/path.go:17-53 | returns the folder if and only if the path spells it, and nothing for a path that does not start at the root |
| FolderPaths.PiecesOfJoin | pkg/util/path.go:32-44 | splitting a clean path gives back the names that it was joined from |
| FolderPaths.FirstOrCreate | models/folder.go:25-33 | returns the folder of this name and parent; inserts it if and only if there was none, the place is free and the database does not refuse |
| FolderPaths.SucceedsExactly | pkg/filesystem/manage.go:395-435 | CreateDirectory succeeds on a clean path without trailing blanks if and only if the user has a root and at each step the folder is there, or its name is legal, no file is in the way and it can be inserted |
| FolderPaths.ErrorsExactly | pkg/filesystem/manage.go:395-435 | which error is reported: an illegal name among those looked at, then a missing root, then a file in the way, then an insertion that fails |
| FolderPaths.NoFileOfThatName | pkg/filesystem/manage.go:417-420 | a file in the way is a file with the name of the folder in its parent |
| FolderPaths.LegalExactly | pkg/filesystem/validator.go:17-44 | legal names: 1 to 255 characters, none of the nine reserved ones, no blank at the end; but for "." and ".." they can stand in a path |
| FolderPaths.TrimsBlanksExactly | pkg/filesystem/manage.go:399-400 | a name is its trimmed form followed by blanks |
| FolderPaths.PlanIsVerdict | pkg/filesystem/manage.go:395-435 | the plan for any path, whose parents are looked up with trailing blanks and created without, fails as that verdict says if there are none |
| FolderPaths.CreateAt | pkg/filesystem/manage.go:395-435 | on every path it fails, finds a folder or makes one as the plan says; creates exactly the folders that a path without trailing blanks lacks and returns the one it spells; an illegal name or a file in the way creates nothing |
| FolderPaths.CreateDirectory | pkg/filesystem/manage.go:382-435 | the same for any path from the root, with the results for the root itself and for paths that do not start there |
| FolderPaths.LeadsIsFound | pkg/filesystem/manage.go:380-435 | after a success, the plan for the same path is to find the same folder, whatever fails then |
| FolderPaths.StillLeads | pkg/filesystem/manage.go:404-412 | a folder created further down does not change where the path above it leads |
| FolderPaths.CreateTwice | pkg/filesystem/manage.go:380-435 | two calls with one path, of any form: after a success the second returns the same folder and leaves the table as the first left it |
| FolderPaths.CleanRelativeSteps | pkg/filesystem/manage.go:395 | what one more element does to a cleaned path that does not start at the root, where leading ".." stay |
| FolderPaths.CreateRelative | pkg/filesystem/manage.go:382-412 | on a path that does not start at the root the recursion ends: at an illegal name if there is one, else at the protected "." |
| EmbedFS.Split | bootstrap/embed.go:187-200 | the backward scan finds the directory and element of a name without its trailing slash |
| EmbedFS.KeyExactly | bootstrap/embed.go:187-200 | the key of a valid name is its last element and the directory that holds it |
| EmbedFS.TrimSlashExactly | bootstrap/embed.go:187-193 | at most one slash at the end is cut off |
| EmbedFS.KeyIsInjective | bootstrap/embed.go:187-200 | two valid names with the same directory and element are the same name |
| EmbedFS.SortSearch | bootstrap/embed.go:417-432 | on a monotone predicate the search returns the first index where it holds, or the length |
| EmbedFS.Lookup | bootstrap/embed.go:251-277 | on a list in the order of NewFS, finds a file of the name if and only if a linear scan does |
| EmbedFS.ReadDir | bootstrap/embed.go:280-296 | returns exactly the files, in order, that a linear scan for the directory finds |
| EmbedFS.KeyLessIsTotal | bootstrap/fs.go:61-70 | the order of NewFS tells any two different keys apart |
| EmbedFS.LessExactly | bootstrap/fs.go:61-70 | strings are ordered by their first difference, and after their beginnings |
| EmbedFS.OpenDir.ReadDir | bootstrap/embed.go:397-414 | returns the next page, with an end-of-file only for a positive count at the end |
| EmbedFS.ReadPages | bootstrap/embed.go:397-414 | successive reads return the stretch of the list between the old and the new offset |
| EmbedFS.PagesConcatenate | bootstrap/embed.go:397-414 | the pages of any sequence of reads concatenate to a prefix of the list, and to all of it once the counts suffice |
| Heartbeat.SlaveNode.PingLoop | pkg/cluster/slave.go:166-224 | after every ping: offline and recovering if and only if the trailing failures reach the threshold; updates go with the first ping and the one after a recovery; the waiting time follows the mode |
| Heartbeat.ChangesAlternate | pkg/cluster/slave.go:262-275 | subscribers hear alternating changes, the last of which is the present status |
| Heartbeat.StatusAndUpdatesExactly | pkg/cluster/slave.go:166-224 | a node is offline if and only if its latest pings, as many as the threshold, all failed; updates go with the first ping and with the one after a success that ended such a run |
| Heartbeat.StatusFlipsExactly | pkg/cluster/slave.go:190-216 | the failure that completes the run takes a node offline, and the first success brings it back, and nothing else does |
| NodePool.RoundRobin.Picks | pkg/balancer/roundrobin.go:13-30 | consecutive picks without a wrap are consecutive remainders |
| NodePool.RoundsAreFair | pkg/balancer/roundrobin.go:28-30 | k times n consecutive picks over n nodes choose each exactly k times, wherever they start |
| NodePool.WrapKeepsRotation | pkg/balancer/roundrobin.go:28-30 | the wrap continues the rotation if and only if n divides 2^64 |
| NodePool.Pool.BuildIndexMap | pkg/cluster/pool.go:58-72 | lists each active node with the feature once and nothing else; crashes if and only if an active entry is nil |
| NodePool.Pool.NodeStatusChange | pkg/cluster/pool.go:85-105 | moves the node to the side of its status; the pool stays consistent if and only if it knew the node |
| NodePool.Pool.Add | pkg/cluster/pool.go:137-155 | a new node joins the side of its status and a known one stays where it is |
| NodePool.Pool.Delete | pkg/cluster/pool.go:157-174 | the node is on neither side and not in the index afterwards |
| NodePool.Pool.BalanceNodeByFeature | pkg/cluster/pool.go:177-190 | the pick is active and has the feature; there is none if and only if no such node exists |
| NodeLiveness.Hear | pkg/cluster/pool.go:85-135 | after any pings of any pooled nodes, whose reports interleave in any way, the pool with its index is consistent and holds the same nodes, each on the side that its own pings ask for |
| NodeLiveness.Watch | pkg/cluster/slave.go:166-275 | the heartbeat loop of one pooled node leaves it on the side that is its own status |
| NodeLiveness.LatestIsStatus | pkg/cluster/slave.go:262-275 | what a node reported last, or the side it started on, is the status that its pings ask for |
| Monitor.Monitor.Complete | pkg/aria2/monitor/monitor.go:238-308 | transfer, wait, recycle or give up, as specified |
| Monitor.Monitor.Update | pkg/aria2/monitor/monitor.go:75-129 | state, effects and exit of one round, as specified for every report and every failing call |
| Monitor.Monitor.Loop | pkg/aria2/monitor/monitor.go:53-72 | the loop runs the rounds up to the first that ends it |
| Monitor.RunsCleanUpOnce | pkg/aria2/monitor/monitor.go:75-129 | a run submits at most one transfer; it ends with exactly one clean-up, or with none if and only if the status is unknown; it recycles only after its transfer is settled |
| Monitor.EleventhFailureEnds | pkg/aria2/monitor/monitor.go:79-93 | a failing poll ends a run if and only if it is the eleventh in a row |
| Monitor.EndsExactly | pkg/aria2/monitor/monitor.go:75-129 | over all runs: which poll ends the monitor, for one of six reasons, and the status that it leaves |
| Monitor.TransfersExactly | pkg/aria2/monitor/monitor.go:238-260 | a run has submitted a transfer if and only if a poll found the download complete or seeding |
| Monitor.FirstLoadedTransfers | pkg/aria2/monitor/monitor.go:238-260 | it was the first such poll that submitted it |
| Monitor.GidIsTheLatest | pkg/aria2/monitor/monitor.go:96-112 | a run polls for the id that the latest successful poll gave, after a redirection for the new one |
| Monitor.ReportIsTheLatest | pkg/aria2/monitor/monitor.go:131-140 | size and status are those of the latest report |
| Monitor.RemovesAfterTransferExactly | pkg/aria2/monitor/monitor.go:75-129 | a run that submitted a transfer removes the temporary files if and only if it ends by the eleventh failing poll, a failing save or validation, an error or canceled status, a failing job lookup, or a recycle job that cannot be recorded |
| Monitor.FilesVanishUnderTransferExactly | pkg/aria2/monitor/monitor.go:238-270 | over all runs the files are removed while the submitted job is not settled if and only if the run ends in one of these ways, the last excepted |
| Monitor.FilesVanishUnderTransfer | pkg/aria2/monitor/monitor.go:248-254 | such runs exist: the job's row cannot be read in the next round |

## Left out

- Locking, goroutines and races: each method guarded by a mutex, and each upload request, is one step.  The goroutine of
  `CancelUpload` is modelled as a failing attempt that is followed by its truncation, not as racing with a Put that ends well.
- Real I/O and SDKs: HTTP, cloud drivers, the aria2 transport, archives, images, mail.  Their outcomes are parameters.
- Gorm and SQL: tables are maps, queries are atomic, their rows come in any order and they do not fail; other failures are parameters where a branch
  depends on them.
- `walkToRoot` has no member of its own: its callback is written out in the three loops that use it.
- MemLockSystem.MemLS.Create: does not model the wrap-around of the 64-bit token counter, nor of times.
- MemLockSystem.MemLS.Lookup: ignores negated conditions and entity tags, as the code does.
- ChunkGroup.ChunkGroup.Process: does not model a temporary file that cannot be created, nor waiting between attempts.
- ChunkReceiver.Receiver.LocalUpload: does not model thumbnails, checksums or the name and extension checks, nor the slave's
  variant of the endpoint.
- ChunkReceiver.SenderAndReceiverAgree: sizes are below 2^63, where the sender's signed arithmetic ends.
- FileRows.Database.UpdateSize: does not model that the database library may note the new size in the row in hand even when
  it rolls back; such a rollback behaves like a failing commit.
- Accounts.FileSystem.Copy: queries do not fail, and neither does the final charge, whose error the code ignores.
- Folders.GetRecursiveChildFolder: with nested folders repeats rows, as the code does, and stops at 65535 levels.
- Delete.FileSystem.Delete: is about trees of up to 65535 levels whose folders have the owner of their parent; thumbnail
  objects and share links are not modelled.
- FolderPaths.CreateAt: which folders are created is stated for paths without trailing blanks, on which the names that are
  looked up are the names that are created; the result is stated for every path.
- FolderPaths.CreateDirectory: characters stand for bytes in the length limit; a file system opened on a shared folder is not
  modelled.
- NodeLiveness.Hear: a node is subscribed before its first report; only reports come while they are heard.
- FolderPaths.TracedPathLeadsBack: is about names without slashes other than "." and "..", which renaming does not exclude.
- EmbedFS.Lookup: takes the list as `NewFS` sorts it; the sort itself and the zip reader are trusted, names are compared as
  characters.
- IfHeader.ReadIfHeader: does not model multi-byte characters.
- Heartbeat.SlaveNode.PingLoop: the retry setting does not change during a loop; the waiting time is stated for positive
  intervals.
- NodePool.Pool.Add: the repeated start of a known node runs on its own and is not modelled.
- Monitor.Monitor.Update: speeds, attributes and messages of a task are not modelled.
- WebDAV handlers, XML, PROPFIND, sessions, routers, controllers, serializers, user administration, settings and caches: they
  would add only easy members.
