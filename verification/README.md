# Codeclew's publication protocols and algorithms, verified in Dafny

This project models the parts of Codeclew's build and release tooling in which a
mistake would be silent: crash-recoverable publication into content-addressed stores,
the lifetime of published state under concurrent readers, writers and deleters, and a
few dense algorithms with simple specifications. It states what each of them promises
and proves it for every input, every interleaving and every crash point.

`dafny verify dfyconfig.toml` checks the whole project.

| file | what it models |
|---|---|
| `SeedTree.dfy` | scanning a cache tree into rows; rows and trees determine each other |
| `SeedObject.dfy` | normalising, sealing, validating and cloning a cache seed |
| `SeedNormal.dfy` | what normalising keeps, drops and refuses, path by path |
| `SeedProtocol.dfy` | publication into and recovery of the cold-cache seed store, step by step, for one key |
| `SeedPaths.dfy` | scans, object checks and preparation, path by path |
| `SeedDeletion.dfy` | the bounded recursive deletion, entry by entry |
| `SeedPublish.dfy` | one publication run to its end, from whatever records and objects it meets |
| `SeedStore.dfy` | the whole store: many keys and shared objects, exceptions and crashes, over every run |
| `SeedExamples.dfy` | runs of the store in which recovery refuses or a commitment is lost |
| `LockPublication.dfy` | the lock file that is published under two names through a third |
| `TrustedEpochs.dfy` | trusted-seed epochs: publisher, collector, readers, crashes, and the locator's digest chain |
| `EpochCalls.dfy` | one publication, one collection and one reader of the epochs, run to its end |
| `Cohorts.dfy` | cold-gate cohorts: receipts, completion, recovery of stale runs by other controllers |
| `CohortOwners.dfy` | the owner of a cohort from its candidate to COMPLETE, among other controllers |
| `Supervisor.dfy` | the build supervisor and the build stages: cancellation against registration |
| `Checkpoint.dfy` | metadata checkpoints while the source tree is being edited |
| `BuildPlan.dfy` | memory and core admission of a cold build |
| `Chunks.dfy` | joined chunks and bounded tails, shared by the next two |
| `ChunkedSearch.dfy` | the chunked search for private build paths |
| `DiagnosticStream.dfy` | the bounded diagnostic stream and its line parser |
| `FullScan.dfy` | the reference reachability fixed point |
| `RustMask.dfy` | the Rust string masker and its scanners |
| `JsonMask.dfy` | path-exact masking of generated JSON |

## How it is modelled

- A protocol that may die between two system calls is a step machine. Program counters
  are part of the state, a crash resets one, and the theorems quantify over every
  sequence of events from the empty store. Locks are what the steps test before they move.
- Objects with fields that are updated in place are classes (`LockDirectory`,
  `BuildProcessSupervisor`, `Stream`, `Walker`); loops are methods with invariants,
  each tied by its `ensures` to a function or predicate about which the lemmas speak.
- SHA-256 of canonical JSON is a free datatype constructor, so equal digests mean equal
  contents. What a digest is taken of is written out in full.
- Clocks, schedulers, JSON and Unicode tables are parameters, and the theorems
  hold for all of them.

Where the code does less than one would expect, the model follows the code, an example
shows it, and the exact condition is proved:

- A crash between linking a record and unlinking its temporary name leaves two links for
  good, and `recover_seed` then refuses (`SeedStore.TornIsExact`,
  `SeedExamples.BlockedKeyExample`). Apart from failing system calls it refuses in one other
  case only: when it has to delete a candidate that holds a special file or exceeds the
  entry or byte budget of a deletion. A special file is there for ever, and a locator
  may already have been published when the refusal strikes
  (`SeedProtocol.RecoveryIsExact`, `SeedProtocol.SpecialIsForEver`, `SeedExamples.StuckKeyExample`).
- `publish_seed` may refuse after it has published: where another key has placed the same tree
  it deletes its own candidate last, and a candidate that exceeds a deletion budget makes
  the call raise with its locator written (`SeedPublish.PublicationIsExact`).
- An exception in `publish_seed` after its pending record is written and before its object
  is in place removes the candidate and keeps the record. Recovery then drops the
  record and finds nothing: the commitment is lost. It is kept exactly as long as
  the digest's tree remains as locator, object or candidate, and an exception endangers it
  in that window only (`SeedProtocol.RecoveryIsExact`, `SeedStore.CommitPointIsDurable`,
  `SeedStore.EffectKeepsTree`, `SeedExamples.LostCommitmentExample`).
- A removal of a stale cohort that dies after unlinking `cohort.json` and before removing
  the directory leaves an empty directory that every later controller refuses; nothing
  else is refused (`Cohorts.RecoveryIsExact`, `Cohorts.HollowCohortIsReached`).
- The supervisor files processes by pid. A process registered under a pid whose termination
  has already begun for another process is never handed over, and neither is one whose
  entry is overwritten or popped, before a collection, by the registration or
  unregistration of another process with its pid; every other registered process is
  handed over, exactly once (`Supervisor.CancellationIsExact`,
  `Supervisor.ReusedPidExample`, `Supervisor.DisplacedPidExample`).
- When a build stage is left and its process still runs, the process has been handed over
  unless it was lost in one of these two ways or the stage failed between starting it
  and registering it. Signals cannot strike there, since stages run in worker threads
  (bootstrap/clew_bootstrap.py:217-218), but any other exception can
  (`Supervisor.StagesAreExact`, `Supervisor.ReusedStageExample`,
  `Supervisor.UnregisteredExample`).
- Where AUTO turns from a sequential to a parallel plan a larger host may get a smaller
  Gradle heap or fewer workers; the exact condition is stated
  (`BuildPlan.MoreHostMoreBuild`, `BuildPlan.AutoShrinksAtThreshold`).
- A serial build plan does not leave room for Gradle and Cargo at the same time unless the
  budget reaches 11.5 GiB (`BuildPlan.PlanFits`, `BuildPlan.SmallestSerialPlan`).
- With more than 32 seeds the masks of `full_scan` share bits (`FullScan.FullScan`,
  `FullScan.ThirtyThirdSeedShares`).

## Model

| member | source | states |
|---|---|---|
| `SeedTree.VisitEntry` | scripts/cold_cache_authority.py:299-356 | visiting one entry refuses exactly when the entry is unsafe, linked, of a forbidden mode or pushes a total over its limit; otherwise it appends exactly that entry's rows |
| `SeedTree.Visit` | scripts/cold_cache_authority.py:291-358 | the running totals refuse a directory exactly when its final totals do |
| `SeedTree.ScanTreeFd` | scripts/cold_cache_authority.py:268-363 | the entry-by-entry scan equals the closed form: all rows in order and the byte total, or a refusal |
| `SeedTree.DirectoryCut` | scripts/cold_cache_authority.py:310-331 | the rows after a directory's own row are those of its children, all below it, then the rest, none below it |
| `SeedTree.UniqueCut` | scripts/cold_cache_authority.py:310-331 | a row list can be cut in only one way into what lies below a directory and what does not |
| `SeedTree.RowsDetermineTree` | scripts/cold_cache_authority.py:268-385 | two trees with the same rows have the same names, structure, contents and executable flags |
| `SeedTree.TreeDeterminesRows` | scripts/cold_cache_authority.py:268-385 | conversely, rows and size see nothing else of a tree |
| `SeedTree.LessIsTotal` | scripts/cold_cache_authority.py:294-296 | the order in which names are visited is total, so that a listing has one order |
| `SeedTree.ExecutableByDigits` | scripts/cold_cache_authority.py:348-348 | the executable flag is set exactly if the owner, group or others digit of the mode is odd |
| `SeedObject.NormalizeIdempotent` | scripts/cold_cache_authority.py:781-805 | normalising a normalised candidate changes nothing and never refuses |
| `SeedObject.NormalizeIsNormal` | scripts/cold_cache_authority.py:781-805 | no volatile file or directory, link, special file or nested manifest survives; what does survive is `SeedNormal.NormalizeKeepsExactly` |
| `SeedObject.NormalizeWellFormed` | scripts/cold_cache_authority.py:781-805 | normalisation keeps every directory sorted and free of repeated names |
| `SeedNormal.NormalizeKeepsExactly` | scripts/cold_cache_authority.py:781-805 | at every path of the result stands exactly what must: a file, with its mode, links and contents, if and only if it stood there, its name is not volatile and no directory on the way is volatile; a directory, with mode 0700, if and only if a directory stood there and neither it nor one on the way is volatile; nothing else |
| `SeedNormal.NormalizeRefusesExactly` | scripts/cold_cache_authority.py:788-805 | normalisation refuses if and only if a special file stands anywhere, or a link or a nested manifest stands outside the volatile directories |
| `SeedNormal.RemovableIsExact` | scripts/cold_cache_authority.py:680-700 | a recursive deletion is stopped exactly by a special file at some path |
| `SeedNormal.VolatileIsExact` | scripts/cold_cache_authority.py:802-803 | a file name is volatile exactly if it is listed or has something before `.lock` or `.lck` |
| `SeedPaths.AcceptableIsExact` | scripts/cold_cache_authority.py:291-358 | a scan accepts a tree exactly if every path has a safe name and is a file with one link and an allowed mode or a directory with an allowed mode |
| `SeedPaths.RowsAreExact` | scripts/cold_cache_authority.py:310-356 | the rows of a scan are exactly those of its paths: a directory row or a file row with flag, digest and size |
| `SeedPaths.ChmodIsExact` | scripts/cold_cache_authority.py:818-854 | changing modes keeps every path, with links and contents, and sets the mode by kind and executable flag |
| `SeedPaths.PreparedPaths` | scripts/cold_cache_authority.py:1154-1161 | in a prepared seed stand exactly the manifest and every path that survives normalisation, sealed |
| `SeedPaths.PrepareIsExact` | scripts/cold_cache_authority.py:1154-1161 | a candidate cannot be prepared exactly if it is no directory, holds what normalisation refuses, or keeps an unsafe name, a second link, a directory under the name of the manifest or more than the limits allow |
| `SeedPaths.SealedModesIsExact` | scripts/cold_cache_authority.py:874-894 | the mode check passes exactly if every path is a file with one link and the sealed mode of its flag, or a directory with mode 0500 |
| `SeedPaths.ValidateIsExact` | scripts/cold_cache_authority.py:897-927 | the object check passes with a manifest if and only if the root has the sealed mode, or 0700 where that may be recovered, every path below is sealed under a safe name, and the manifest that stands there has the digest and describes size, rows and count of everything else within the limits |
| `SeedObject.ChmodKeepsRows` | scripts/cold_cache_authority.py:818-854 | sealing and making writable keep the rows and the size of every tree |
| `SeedObject.ChmodTwice` | scripts/cold_cache_authority.py:1357-1391 | sealing what was made writable is sealing the original |
| `SeedObject.SealedWithManifest` | scripts/cold_cache_authority.py:818-927 | after the manifest is written and everything sealed, the object check finds sealed modes, that manifest and the rows that were scanned |
| `SeedObject.PreparedValidates` | scripts/cold_cache_authority.py:1154-1161 | a prepared private candidate always passes the object check, under the digest of its normalised rows |
| `SeedObject.SameDigestSameTree` | scripts/cold_cache_authority.py:374-376 | two candidates are prepared under one digest exactly when their normalised trees agree |
| `SeedObject.SealedRootValidates` | scripts/cold_cache_authority.py:897-927 | a recovering check that passes leaves an object that passes the strict one |
| `SeedObject.ValidateDigestUnique` | scripts/cold_cache_authority.py:897-927 | no object passes the check under two digests |
| `SeedObject.DigestDeterminesObject` | scripts/cold_cache_authority.py:897-927 | objects that pass under one digest hold the same tree |
| `SeedObject.FaithfulCopyAccepted` | scripts/cold_cache_authority.py:1394-1461 | cloning a faithful copy of a valid seed succeeds with the seed's manifest |
| `SeedObject.AcceptedCopyFaithful` | scripts/cold_cache_authority.py:1394-1461 | a copy that cloning accepts is the seed's tree |
| `SeedObject.CloneIsExact` | scripts/cold_cache_authority.py:1394-1461 | a copy is accepted, with the manifest of the seed, if and only if the seed is valid, the root of the copy has the sealed mode, nothing in it is linked and it has the names, structure, contents and flags of the seed |
| `SeedProtocol.OneMatch` | scripts/cold_cache_authority.py:1054-1076 | never more than one candidate matches, so the ambiguity refusal cannot happen; one is found exactly when a candidate for the digest is left |
| `SeedProtocol.RecoverStepKeepsSlot` | scripts/cold_cache_authority.py:979-1121 | every step of recovery, the abandoning ones included, keeps the invariant of its key, and objects only appear or get sealed |
| `SeedProtocol.EarlyStepKeepsSlot` | scripts/cold_cache_authority.py:1236-1254 | priming and preparing change only the key's own candidate |
| `SeedProtocol.RecordStepKeepsSlot` | scripts/cold_cache_authority.py:1280-1333 | writing and dropping records keeps the promises and leaves objects alone; that the records do get written is `SeedPublish.PublicationIsExact` |
| `SeedProtocol.ObjectStepKeepsSlot` | scripts/cold_cache_authority.py:1292-1316 | renaming the candidate into place and sealing the object keeps the promises |
| `SeedProtocol.StepKeepsSlot` | scripts/cold_cache_authority.py:979-1346 | every step of the owning process keeps the invariant of its key |
| `SeedProtocol.RaiseKeepsSlot` | scripts/cold_cache_authority.py:1334-1346 | an exception at any point keeps the invariant and every record |
| `SeedDeletion.DeletionIsExact` | scripts/cold_cache_authority.py:674-700 | the deletion that counts entries and bytes as it goes succeeds exactly if the tree has no special file and keeps within both budgets as a whole |
| `SeedProtocol.StepKeepsCommitment` | scripts/cold_cache_authority.py:1077-1084 | a commitment outlives every step of its owner except the one with which recovery abandons it, and a locator never changes its digest |
| `SeedStore.EffectKeepsTree` | scripts/cold_cache_authority.py:1284-1341 | every step and crash keeps the tree of a committed digest, and an exception does exactly outside the window between writing the pending record and placing the object |
| `SeedProtocol.RecoverStepDecreases` | scripts/cold_cache_authority.py:979-1121 | recovery terminates, whatever it is given to delete |
| `SeedProtocol.RecoverKeepsPromise` | scripts/cold_cache_authority.py:979-1121 | how recovery will end, its answer and the records it leaves, is fixed from its first step on |
| `SeedProtocol.RecoveryIsExact` | scripts/cold_cache_authority.py:979-1121 | recovery refuses exactly when a record has two links or it has to delete a candidate that cannot be deleted; unless a record has two links it publishes a committed digest exactly when its tree is still there, even if the deletion after it refuses; a record without a tree is dropped after the candidates |
| `SeedProtocol.SpecialIsForEver` | scripts/cold_cache_authority.py:674-700 | recovery refuses a key with a special file in its candidate and leaves the file there for the next recovery |
| `SeedPublish.PublishStepDecreases` | scripts/cold_cache_authority.py:1244-1333 | publication terminates, whatever it is given to delete |
| `SeedPublish.PublishKeepsPromise` | scripts/cold_cache_authority.py:1244-1333 | how a publication will end, its answer and the records and objects it leaves, is fixed from its first step on, and other candidates are left alone |
| `SeedPublish.PublicationIsExact` | scripts/cold_cache_authority.py:1236-1346 | from any records, objects and candidates: the call answers with a digest if and only if that is the digest of the prepared candidate, the records and the object already there agree, and a candidate that is not needed can be deleted; then the locator names the sealed object and neither pending record nor candidate is left; every refusal is stated with what it leaves |
| `SeedPublish.PublicationIsTidy` | scripts/cold_cache_authority.py:1334-1341 | however it ends, the call leaves no candidate under its name unless what it had there could not be deleted |
| `SeedPublish.ExceptionIsExact` | scripts/cold_cache_authority.py:401-433 | at every program point an exception gives a half-written record its one name, changes nothing else, and leaves only the removal of the candidate to be done |
| `SeedPublish.ExceptionEnds` | scripts/cold_cache_authority.py:1334-1346 | after an exception the call refuses, keeps the records and leaves no candidate that it can delete |
| `SeedExamples.BlockedKeyExample` | scripts/cold_cache_authority.py:401-433 | a run from the empty store in which a crash between link and unlink of the pending record makes recovery refuse |
| `SeedExamples.LostCommitmentExample` | scripts/cold_cache_authority.py:1284-1341 | a run from the empty store in which an exception after the pending record is linked loses the commitment |
| `SeedExamples.StuckKeyExample` | scripts/cold_cache_authority.py:771-778 | a run from the empty store in which a named pipe left by the priming build makes recovery refuse without a record that has two links |
| `SeedStore.ApplyKeepsStore` | scripts/cold_multicore_gate.py:891-936 | steps, exceptions and crashes of any process keep the invariant of every key, and only the holder of the lifecycle lock changes objects |
| `SeedStore.OnlyTheHolderBlocks` | scripts/cold_cache_authority.py:1219-1236 | a process waits only while the process of another key holds the lifecycle lock, and priming holds none |
| `SeedStore.RunKeepsStore` | scripts/cold_multicore_gate.py:891-936 | the invariant holds after every run |
| `SeedStore.StoreIsSafe` | scripts/cold_cache_authority.py:897-927 | after every run a locator names a sealed object with exactly that digest, and a recovery from there refuses exactly under the two conditions |
| `SeedStore.PublicationSucceeds` | scripts/cold_cache_authority.py:1208-1346 | in every state a run can reach, an uninterrupted publication writes the locator of the sealed object if and only if its candidate can be prepared, and answers with the digest unless another key had placed the tree and the candidate cannot be deleted |
| `SeedStore.RunExtends` | scripts/cold_cache_authority.py:1249-1319 | over every run objects and locators are write-once, for keys that share digests too, and a commitment whose object is in place is permanent |
| `SeedStore.CommitPointIsDurable` | scripts/cold_multicore_gate.py:900-936 | after any steps, exceptions, crashes and interrupted recoveries the next recovery publishes a digest if and only if no record has two links, the digest is still committed and its locator, object or a valid candidate remains, and answers with it if and only if it also has nothing to delete that it cannot; commitment and tree remain for a digest whose object was in place, and for any whose key raised no exception in the exposed window |
| `SeedStore.EffectTears` | scripts/cold_cache_authority.py:401-433 | only a crash between linking and unlinking leaves a record with two names, and no step, exception or crash ever mends it |
| `SeedStore.TornIsExact` | scripts/cold_cache_authority.py:401-433 | over every run a key has a record with two names, other than one just being written, exactly if one of its processes died between linking and unlinking |
| `SeedStore.PendingRecordCommits` | scripts/cold_multicore_gate.py:900-936 | with no such crash and no exception in the exposed window, whatever digest is committed is the one that the next recovery publishes |
| `SeedStore.ResolveIsExact` | scripts/cold_cache_authority.py:946-976 | over every run a reader succeeds exactly when the locator is there with one link, and with the manifest of the digest it names |
| `LockPublication.LockDirectory.LockFile` | scripts/cold_cache_authority.py:539-665 | a directory that is no publication stage is refused untouched; any other is moved forward, one stage per change, and locked on the inode already there; this is the call that the run theorems compose |
| `LockPublication.StageIsExact` | scripts/cold_cache_authority.py:539-638 | the stage of a directory is recognised exactly |
| `LockPublication.AfterIsStage` | scripts/cold_cache_authority.py:576-618 | after any number of changes the names are at the corresponding stage with that many links |
| `LockPublication.RunIsStage` | scripts/cold_cache_authority.py:539-638 | over any run of calls and crashes the names are at one of five stages, and never go back |
| `LockPublication.EveryStageReachable` | scripts/cold_cache_authority.py:598-618 | each of the five stages is left by some crash |
| `LockPublication.LocksAgree` | scripts/cold_cache_authority.py:539-638 | everyone who ever gets the lock gets it on the same inode, whatever crashed in between |
| `TrustedEpochs.LocatorHistory` | scripts/trusted_seed_gc.py:1327-1359 | every locator that is written is one that reading accepts; the generation rises by one when the epoch changes and the locator is unchanged when it does not |
| `TrustedEpochs.ReaderEventKeepsCore` | bootstrap/clew_bootstrap.py:977-993 | a reader's steps keep the invariant |
| `TrustedEpochs.StageEventKeepsCore` | scripts/trusted_seed_gc.py:1395-1426 | staging, recording and placing an epoch changes nothing that is protected; that the steps can be taken is `EpochCalls.PublicationIsExact` |
| `TrustedEpochs.WriteCurrentKeepsCore` | scripts/trusted_seed_gc.py:1427-1427 | writing the locator makes the old current epoch the rollback, with all its checks holding |
| `TrustedEpochs.RenameEventKeepsCore` | scripts/trusted_seed_gc.py:1104-1112 | withdrawing and restoring move neither a protected epoch nor one with a reader |
| `TrustedEpochs.NoReaderWhenLocked` | scripts/trusted_seed_gc.py:1002-1047 | once every lock file of an epoch is held exclusively no reader is inside it |
| `TrustedEpochs.DeleteEventKeepsCore` | scripts/trusted_seed_gc.py:1643-1655 | partial and complete deletion keep the invariant |
| `TrustedEpochs.NextKeepsInv` | scripts/trusted_seed_gc.py:1362-1773 | every event of publisher, collector, builder, reader or crash keeps the whole invariant |
| `TrustedEpochs.ProtectedAlwaysStand` | scripts/trusted_seed_gc.py:1303-1324 | in every reachable state the current epoch and its rollback stand whole under their names, with the keys and digests of the locator and their own records, the rollback one generation before, so their checks never fail |
| `TrustedEpochs.ProtectedUntouched` | scripts/trusted_seed_gc.py:1658-1773 | no event withdraws, deletes or alters either protected epoch |
| `TrustedEpochs.ReadersAreSafe` | bootstrap/clew_bootstrap.py:1088-1235 | over every run a leased epoch stands under its own name with its lock file, whole once verified, and is no tombstone; while anybody publishes or collects no reader is between entering and verifying |
| `TrustedEpochs.NextIsHistoryStep` | scripts/trusted_seed_gc.py:1327-1359 | an event leaves the locator alone or extends its history by exactly one publication |
| `TrustedEpochs.HistoryOnlyGrows` | scripts/trusted_seed_gc.py:571-633 | over every run the chain of publications only grows and the generation is its length |
| `TrustedEpochs.GenerationRises` | scripts/trusted_seed_gc.py:1327-1359 | along every run current.json is unchanged or its generation has risen |
| `TrustedEpochs.ExistingEpochNeedsItsRecord` | scripts/trusted_seed_gc.py:1376-1427 | over every run, publishing an epoch directory that exists makes current.json the record in that directory, and is possible exactly when the directory is whole, for the expected tree, holds the record due now and, without a locator, is the only epoch; otherwise nothing changes |
| `TrustedEpochs.RetryIsIdentical` | scripts/trusted_seed_gc.py:1376-1427 | after any events that leave the placed epoch directory as it was, a retry yields the identical locator exactly if current.json has not moved on or already holds it, and is refused otherwise |
| `EpochCalls.StagingIsExact` | scripts/trusted_seed_gc.py:1376-1408 | publishing a candidate is refused at once, without effect, exactly if history without a locator, a taken epoch name, a missing candidate or an incomplete seed stands in the way |
| `EpochCalls.PlacingIsExact` | scripts/trusted_seed_gc.py:1409-1427 | the three steps after it record, rename and make current, or end without effect exactly if the candidate holds another record |
| `EpochCalls.PublicationIsExact` | scripts/trusted_seed_gc.py:1362-1427 | in every state a run can reach, a whole candidate for a free epoch name can be published: current.json then names the epoch, its runtime key and seed digest, one generation up with the old locator as rollback, the candidate stands under the epoch's name and nothing else changed; it is refused, without effect, in every other case |
| `EpochCalls.AcquiringIsExact` | scripts/trusted_seed_gc.py:1362-1376 | over every run the lifecycle lock can be taken exactly if nobody publishes or collects and no reader is between entering and verifying; death and the end of an operation give it back |
| `EpochCalls.CollectionStarts` | scripts/trusted_seed_gc.py:1658-1708 | collecting starts exactly with a current locator and keeps the named epochs, the current one and its rollback |
| `EpochCalls.RestoringIsExact` | scripts/trusted_seed_gc.py:1681-1693 | a kept epoch that was withdrawn gets its name back unless the name is taken |
| `EpochCalls.CollectingIsExact` | scripts/trusted_seed_gc.py:1710-1773 | an epoch or tombstone that is not kept is removed, and nothing else, if and only if no reader holds a lock file of it; otherwise the attempt changes nothing |
| `EpochCalls.WithdrawalIsUndone` | scripts/trusted_seed_gc.py:1764-1773 | withdrawing an epoch and putting it back, or giving up before, is as if nothing had happened |
| `EpochCalls.IdleMeansNoReader` | scripts/trusted_seed_gc.py:1002-1047 | over every run the lock files of an epoch are free exactly if no reader is in it |
| `EpochCalls.ReadingIsExact` | bootstrap/clew_bootstrap.py:977-993 | a reader gets a release epoch exactly if it stands under its name with its lock file and is whole |
| `Cohorts.WriteAdvances` | scripts/cold_multicore_gate.py:452-489 | each of the 21 writing steps leads from one stage of the directory to the next |
| `Cohorts.ReadAtStage` | scripts/cold_multicore_gate.py:492-531 | a receipt is readable exactly once its temporary name is gone, with the link counts to match |
| `Cohorts.FinishedIsValid` | scripts/cold_multicore_gate.py:1663-1701 | a directory after the last step passes the completeness check |
| `Cohorts.ValidIsFinished` | scripts/cold_multicore_gate.py:1612-1701 | conversely what passes the check is a finished directory |
| `Cohorts.ReadArmsIsExact` | scripts/cold_multicore_gate.py:1612-1660 | the arm chain is read exactly if no arm has a temporary name left and the four receipts are readable, numbered, of the cohort, and each names the digest of the one before |
| `Cohorts.CompletionFixesCohort` | scripts/cold_multicore_gate.py:1663-1701 | valid cohorts whose completion receipts name the same last arm have the same authority, arms, report and receipt |
| `Cohorts.RepairIsExact` | scripts/cold_multicore_gate.py:1704-1758 | the repair leaves a receipt with one name alone, drops the temporary name of one that has exactly these two, and refuses everything else |
| `Cohorts.LinkedCompleteIsRepaired` | scripts/cold_multicore_gate.py:1704-1758 | whatever step the owner died at, a directory with the COMPLETE link is repaired into a finished one |
| `Cohorts.NextKeepsInv` | scripts/cold_multicore_gate.py:1761-1886 | every event of any number of controllers keeps the invariant |
| `Cohorts.CandidateIsStale` | scripts/cold_multicore_gate.py:1766-1769 | a candidate that a recovering controller meets has no live owner |
| `Cohorts.RepairNeverRefuses` | scripts/cold_multicore_gate.py:1787-1793 | repairing a cohort with the COMPLETE link always succeeds and then validates |
| `Cohorts.CleaningIsSafe` | scripts/cold_multicore_gate.py:1794-1795 | a controller deletes only what no other controller holds and nobody completed |
| `Cohorts.RecoveryIsExact` | scripts/cold_multicore_gate.py:1777-1795 | over every run a recovery that meets a cohort it can lock refuses it exactly if it is empty, sets out to repair it exactly if it has the COMPLETE link, and to remove it otherwise |
| `Cohorts.RecoveryLeavesNothingStale` | scripts/cold_multicore_gate.py:1761-1797 | over every run and interleaving, a recovery that has visited its listing leaves no candidate, and every cohort left is finished and free or was found held |
| `Cohorts.RecoveryProgresses` | scripts/cold_multicore_gate.py:1761-1797 | a recovery can go on exactly until its listing is done |
| `Cohorts.RecoveryTerminates` | scripts/cold_multicore_gate.py:1761-1797 | every event of a recovery, in whatever order, brings it nearer to its end |
| `Cohorts.PassIsExact` | scripts/cold_multicore_gate.py:1761-1797 | an uninterrupted pass ends refused exactly if its listing held an empty cohort directory; otherwise held cohorts are untouched, cohorts with the COMPLETE link are kept, repaired and valid, all else of the listing is gone and nothing else changed |
| `Cohorts.PassEnds` | scripts/cold_multicore_gate.py:1761-1797 | from every reachable point a pass left to itself comes to its end |
| `Cohorts.LiveOwnersAreSafe` | scripts/cold_multicore_gate.py:1761-1797 | over every run what is being deleted is nobody else's work and not completed |
| `Cohorts.CompletionIsPermanent` | scripts/cold_multicore_gate.py:1846-1886 | no event removes a cohort after its COMPLETE link |
| `Cohorts.HollowCohortRefused` | scripts/bounded_gate_cleanup.py:189-222 | a removal that dies before its last step leaves a directory that the next controller refuses |
| `Cohorts.HollowCohortIsReached` | scripts/bounded_gate_cleanup.py:189-222 | a run from the empty state that ends in that refusal |
| `CohortOwners.OwnerStarts` | scripts/cold_multicore_gate.py:1800-1838 | after its scan a controller becomes the owner of a new candidate exactly if the token and the cohort's name are free |
| `CohortOwners.OwnerAdvances` | scripts/cold_multicore_gate.py:1800-1886 | whatever others have done, an owner that is not through can take its next step, and it brings it one further on what it set out to write |
| `CohortOwners.OthersLeaveOwner` | scripts/cold_multicore_gate.py:1761-1797 | no event of another controller touches an owner or what it is writing |
| `CohortOwners.OwnerCompletes` | scripts/cold_multicore_gate.py:1800-1886 | over every interleaving with any other controllers an owner that goes on gets one step further with each event of its own, is never stopped, and after the last one its cohort passes the completeness check |
| `CohortOwners.OwnerLetsGo` | scripts/cold_multicore_gate.py:1800-1843 | closing a cohort gives up its lock and changes nothing else |
| `CohortOwners.NothingVanishes` | scripts/bounded_gate_cleanup.py:189-222 | no event makes a directory disappear with anything in it, except by the rename that moves all of it |
| `Supervisor.BuildProcessSupervisor.Register` | bootstrap/clew_bootstrap.py:185-191 | a registration after a cancellation request raises and hands over everything not handed over before |
| `Supervisor.BuildProcessSupervisor.Unregister` | bootstrap/clew_bootstrap.py:193-195 | exactly the process's own pid is forgotten |
| `Supervisor.BuildProcessSupervisor.Cancel` | bootstrap/clew_bootstrap.py:197-205 | exactly the registered processes whose termination had not begun are handed over, each once |
| `Supervisor.NextKeepsInv` | bootstrap/clew_bootstrap.py:170-205 | every atomic section keeps the invariant |
| `Supervisor.NothingIsHandedTwice` | bootstrap/clew_bootstrap.py:170-205 | for every interleaving no process is handed over twice, and after the last cancel returns no registered pid is left unstarted |
| `Supervisor.SafeStep` | bootstrap/clew_bootstrap.py:185-205 | between events of its own a registered process is lost exactly by an event of another process with its pid before its handover, and never regained |
| `Supervisor.CancellationIsExact` | bootstrap/clew_bootstrap.py:185-205 | for every interleaving, once a cancel has collected and none is under way, a process registered and not unregistered since has been handed over exactly once if its registration found its pid free and no event of another process with its pid came before the handover, and not at all otherwise |
| `Supervisor.RequestIsKept` | bootstrap/clew_bootstrap.py:179-200 | a request for cancellation is never forgotten, and nothing else makes one |
| `Supervisor.LateRegistrationCancels` | bootstrap/clew_bootstrap.py:185-205 | over every interleaving a registration makes its caller cancel exactly if a request came before it, and that cancel hands the process over exactly if its pid was free |
| `Supervisor.ReusedPidIsLost` | bootstrap/clew_bootstrap.py:197-205 | a process under a pid whose termination had begun is not handed over in any continuation |
| `Supervisor.ReusedPidExample` | bootstrap/clew_bootstrap.py:185-205 | a run in which that happens |
| `Supervisor.DisplacedPidExample` | bootstrap/clew_bootstrap.py:193-195 | a run in which the unregistration of an ended process pops the entry of the one that has its pid |
| `Supervisor.NextBuildKeepsInv` | bootstrap/clew_bootstrap.py:337-391 | every step of a build stage, its process and the threads outside keeps the invariant |
| `Supervisor.EnrolmentIsExact` | bootstrap/clew_bootstrap.py:344-357 | a stage that registers its process runs on exactly if no cancellation was requested, and otherwise is inside cancel at once |
| `Supervisor.FailureEnds` | bootstrap/clew_bootstrap.py:386-391 | a stage that fails requests everybody's cancellation and leaves with its process unregistered, having handed it over exactly if the supervisor still had it |
| `Supervisor.StagesAreExact` | bootstrap/clew_bootstrap.py:337-391 | when a stage is left and its process still runs, the process has been handed over exactly if it was registered and no registration or unregistration of the run lost it, with pids of ended processes reused at will |
| `Supervisor.UnregisteredExample` | bootstrap/clew_bootstrap.py:344-356 | a run in which a stage fails between starting its process and registering it, and the process escapes |
| `Supervisor.ReusedStageExample` | bootstrap/clew_bootstrap.py:386-391 | a run in which a registered process escapes because the stage of the ended process that had its pid leaves after it registered |
| `Checkpoint.WriteCheckpoint` | bootstrap/clew_bootstrap.py:1358-1361 | a checkpoint is written if and only if, observation by observation, every input is intact after the capture, then no listed directory holds a stray input, and after all that every stamp is the captured one; every compared instant is at or after every verified and every listed one |
| `Checkpoint.ReadValidCheckpoint` | bootstrap/clew_bootstrap.py:1427-1433 | a lookup hits if and only if every row matches at the instant it is compared |
| `Checkpoint.AbsentWhenCapturedStaysAbsent` | bootstrap/clew_bootstrap.py:1358-1361 | a path captured as absent cannot have been present between capture and a lookup that hits |
| `Checkpoint.NothingMovesMeanwhile` | bootstrap/clew_bootstrap.py:1355-1361 | every captured path, present or absent, is as it was captured until the last input is hashed and the last directory listed |
| `Checkpoint.EditIsNoticed` | bootstrap/clew_bootstrap.py:1359-1361 | an edit of a captured path at any instant from its capture to the last hashing or listing leaves no checkpoint |
| `Checkpoint.TreeAtRest` | bootstrap/clew_bootstrap.py:1355-1433 | a tree at rest gets a checkpoint exactly if every input is there with its content and every selected path in a listed directory is an input, and then a lookup hits |
| `Checkpoint.CheckpointIsSound` | bootstrap/clew_bootstrap.py:469-491 | for every interleaving of edits, a hit means each input had the recorded content from verification to comparison |
| `Checkpoint.ListedDirectoryIsFrozen` | bootstrap/clew_bootstrap.py:1250-1275 | while a listed directory keeps its stamp nothing is created in it or removed from it |
| `Checkpoint.NoNewInput` | bootstrap/clew_bootstrap.py:492-498 | a hit also means that no selected path outside the inputs was in a listed directory from the closure check to the comparison |
| `Checkpoint.EditedTreeIsHonest` | bootstrap/clew_bootstrap.py:286-301 | what is assumed of metadata stamps holds while a file is edited |
| `BuildPlan.PlanIsExpected` | scripts/cold_multicore_gate.py:295-333 | every SERIAL or PARALLEL plan is the one the gate computes independently, for all core counts |
| `BuildPlan.BudgetIsMonotone` | scripts/cold_multicore_gate.py:290-292 | the budget never falls as memory grows |
| `BuildPlan.ParallelThreshold` | bootstrap/clew_bootstrap.py:2325-2334 | only the cores and the Gradle share ever refuse a parallel build |
| `BuildPlan.AdmissionIsExact` | bootstrap/clew_bootstrap.py:2317-2358 | two byte thresholds decide admission for every profile; parallel implies serial, and AUTO is admitted exactly when SERIAL is |
| `BuildPlan.MoreHostMoreBuild` | bootstrap/clew_bootstrap.py:2317-2384 | for every profile a larger host is never refused and never goes back from parallel; it gets no less of any resource exactly if the two plans are of one kind or the stated condition on cores and budgets holds where AUTO turns parallel |
| `BuildPlan.SplitIsExact` | bootstrap/clew_bootstrap.py:2338-2374 | that condition, for every pair of hosts between a sequential and a parallel plan |
| `BuildPlan.AutoShrinksAtThreshold` | bootstrap/clew_bootstrap.py:2337-2341 | on two cores one more byte shrinks the heap of AUTO |
| `BuildPlan.PlanFits` | bootstrap/clew_bootstrap.py:2317-2420 | workers fit the cores and each stage the budget; Gradle and Cargo fit together exactly when the plan is parallel or the budget reaches 11.5 GiB; the heap option is never refused |
| `BuildPlan.HeapOptionIsExact` | bootstrap/clew_bootstrap.py:2405-2420 | the heap option is given exactly for whole mebibytes within the bounds |
| `BuildPlan.SmallestSerialPlan` | bootstrap/clew_bootstrap.py:2352-2366 | the smallest serial plan does not fit both at once |
| `ChunkedSearch.WindowIsEnough` | bootstrap/clew_bootstrap.py:2207-2208 | a value no longer than overlap plus one occurs in what was read exactly when it occurred before or occurs in the window |
| `Chunks.TailCarries` | bootstrap/clew_bootstrap.py:2230-2230 | the tail of the window is the last overlap bytes of the file read so far |
| `ChunkedSearch.WindowStep` | bootstrap/clew_bootstrap.py:2206-2230 | one turn of the loop finds all that the bytes so far hold and carries the right tail |
| `ChunkedSearch.SearchArtifact` | bootstrap/clew_bootstrap.py:2204-2230 | for every chunking, matches are reported exactly if the whole file holds a forbidden value, at the first chunk where it does, and are exactly those held so far |
| `ChunkedSearch.VerifyCapsule` | bootstrap/clew_bootstrap.py:2190-2230 | the first artifact that holds a private absolute path is refused, and otherwise none |
| `DiagnosticStream.PendingIsLastPart` | bootstrap/diagnostics.py:124-130 | the pending line is the longest suffix without a newline |
| `DiagnosticStream.LastStageIsLast` | bootstrap/diagnostics.py:130-142 | the projected stage is that of the last recognised newline-terminated line of at most the limit, and none if there is none |
| `DiagnosticStream.StageIsExact` | bootstrap/diagnostics.py:130-142 | the projected stage by schema: that of the last short line that carries a bootstrap or an installation error, and none exactly if no line does |
| `DiagnosticStream.SplitLinesJoins` | bootstrap/diagnostics.py:123-123 | fragments lose no byte and hold a newline only at their end |
| `DiagnosticStream.FragmentEndIsExact` | bootstrap/diagnostics.py:123-123 | a fragment ends at the first line feed, lone carriage return or pair of both, or with the data |
| `DiagnosticStream.FragmentStep` | bootstrap/diagnostics.py:123-142 | the effect of one fragment on the pending line and the stage |
| `DiagnosticStream.Stream.Scan` | bootstrap/diagnostics.py:124-142 | the scanner's buffer, overflow flag and stage are those of all bytes seen |
| `DiagnosticStream.Stream.ScanData` | bootstrap/diagnostics.py:123-142 | the fragment loop leaves the scanner where all bytes seen leave it |
| `DiagnosticStream.Stream.Append` | bootstrap/diagnostics.py:116-142 | after every chunk all fields are functions of the bytes seen so far |
| `DiagnosticStream.Stream.GetMetadata` | bootstrap/diagnostics.py:151-154 | retained plus dropped is observed, and retained is bounded as promised |
| `DiagnosticStream.Collect` | bootstrap/diagnostics.py:200-203 | tail, stage and counts depend on the joined bytes only, not on the chunks |
| `FullScan.Sweep` | scripts/benchmark_process_reachability.rs:23-27 | a round adds only nodes that reach the seed, and adds none only at a closed set |
| `FullScan.Saturate` | scripts/benchmark_process_reachability.rs:17-31 | the rounds end with exactly the nodes that reach the seed |
| `FullScan.Mark` | scripts/benchmark_process_reachability.rs:32-34 | each reached node gets this seed's bit and nothing else changes |
| `FullScan.FullScan` | scripts/benchmark_process_reachability.rs:11-37 | bit b of a node is set exactly when it reaches a seed whose index is b modulo 32 |
| `FullScan.OneBitPerSeed` | scripts/benchmark_process_reachability.rs:11-37 | with at most 32 seeds bit b means that seed b is reached |
| `FullScan.ThirtyThirdSeedShares` | scripts/benchmark_process_reachability.rs:33-33 | a thirty-third seed sets the first one's bit |
| `FullScan.EdgeOrderIsIrrelevant` | scripts/benchmark_process_reachability.rs:11-37 | edge lists with the same edges have the same result |
| `RustMask.CharacterLiteralIsExact` | scripts/check_english_content.py:61-96 | the scanner accepts exactly the character literals of the grammar |
| `RustMask.DigitsAreExact` | scripts/check_english_content.py:75-77 | the digits of a Unicode escape are accepted exactly if without separators some are left and all are hexadecimal |
| `RustMask.PlainEndIsExact` | scripts/check_english_content.py:147-158 | an ordinary string ends at its first quote that is not escaped |
| `RustMask.RawEndIsExact` | scripts/check_english_content.py:132-140 | a raw string ends at the first quote followed by its number of hashes |
| `RustMask.StringOpeningIsExact` | scripts/check_english_content.py:99-131 | by grammar: a plain string opens exactly at `"`, `b"` or `c"`, a raw one with n hashes exactly at `r` or `br`, n hashes and a quote, the prefixed forms not after a word character |
| `RustMask.FindStringLiteralEnd` | scripts/check_english_content.py:99-158 | the loops compute the scanner that `StringLiteralIsExact` ties to the grammar |
| `RustMask.StringLiteralIsExact` | scripts/check_english_content.py:99-158 | an end, "incomplete" and "absent" are answered exactly for a complete, an opened but never completed, and no string literal, all three by the grammar of openings and bodies |
| `RustMask.FindTriviaEnd` | scripts/check_english_content.py:161-187 | the loop computes the trivia scanner |
| `RustMask.BlockEndIsExact` | scripts/check_english_content.py:173-184 | a block comment ends where the grammar of nested comments closes it, or at the end of the text exactly if nothing does |
| `RustMask.LineEndIsExact` | scripts/check_english_content.py:167-172 | in attributes and trivia a line comment ends with the first line feed or carriage return, or at the end of the text |
| `RustMask.SkipTriviaIsExact` | scripts/check_english_content.py:161-187 | exactly the longest tiling by whitespace, line comments and block comments is skipped |
| `RustMask.FindAttributeEnd` | scripts/check_english_content.py:190-235 | the loop computes the attribute scanner |
| `RustMask.OpeningIsExact` | scripts/check_english_content.py:190-201 | an attribute opens exactly at a hash, not after a word, that trivia and at most one exclamation mark separate from its bracket |
| `RustMask.InnerIsExact` | scripts/check_english_content.py:207-227 | inside an attribute exactly the comments and complete literals of the grammar are stepped over |
| `RustMask.AttributeCloseIsExact` | scripts/check_english_content.py:206-235 | an attribute closes exactly where the brackets between comments and literals, both by grammar, first balance |
| `RustMask.AttributeIsExact` | scripts/check_english_content.py:190-235 | an end or "incomplete" is answered exactly for a complete or an opened but never completed attribute |
| `RustMask.StepIsToken` | scripts/check_english_content.py:241-283 | each step of the mask is a token of the grammar, or stands at something unfinished |
| `RustMask.TokensTileFrom` | scripts/check_english_content.py:238-284 | the steps tile the text up to its end or to something unfinished |
| `RustMask.MaskRustStringLiterals` | scripts/check_english_content.py:238-284 | the loop terminates and blanks exactly the string tokens, line feeds apart |
| `RustMask.MaskIsExact` | scripts/check_english_content.py:238-284 | same length and line feeds; changes only inside complete string literals, in no other token and nowhere from an unfinished literal or attribute on |
| `JsonMask.Walker.Token` | scripts/check_english_content.py:387-393 | a call takes the next match and adds its edit, and fails only without one |
| `JsonMask.Walker.Walk` | scripts/check_english_content.py:395-404 | the walk serves its keys and values in order from consecutive matches |
| `JsonMask.ApplyEdits` | scripts/check_english_content.py:407-413 | the joining loop is the splice of the edits |
| `JsonMask.MaskGeneratedJson` | scripts/check_english_content.py:359-413 | a text that does not load is returned as it is; any other is walked and spliced with the allowed paths |
| `JsonMask.MatchesAreTokens` | scripts/check_english_content.py:298-298 | the regular expression finds exactly the document's string tokens, in order |
| `JsonMask.FlatIsFaithful` | scripts/check_english_content.py:395-404 | the walk over the parsed value meets keys and values in the order of the document's tokens |
| `JsonMask.SpliceToken` | scripts/check_english_content.py:387-393 | the edits of one token turn it into what the reference shows |
| `JsonMask.MaskingIsPathExact` | scripts/check_english_content.py:382-413 | for every document without repeated keys the result is the document with each string token shown by its own path; the matches never run out |
| `JsonMask.ShownKeepsLength` | scripts/check_english_content.py:318-319 | a shown token keeps its length and its line breaks |
| `JsonMask.ShowKeepsLength` | scripts/check_english_content.py:407-413 | the masked document has the length of the original |
| `JsonMask.CyrillicStaysVisible` | scripts/check_english_content.py:391-393 | every token that is not blanked and whose text holds Cyrillic, raw or escaped, still shows Cyrillic |
| `JsonMask.NothingIsHidden` | scripts/check_english_content.py:387-413 | if any key or value that no allowed path excuses holds Cyrillic, the masked document does too |
| `JsonMask.BlankShowsNothing` | scripts/check_english_content.py:318-319 | a blanked token shows none |
| `JsonMask.LoadIsUnique` | scripts/check_english_content.py:322-328 | a value that loads has no repeated key at any depth |
| `JsonMask.LoadRefusesExactly` | scripts/check_english_content.py:322-328 | a document is refused exactly if some object in it, at any depth, has two keys that decode to the same text |
| `JsonMask.PathsAreDistinct` | scripts/check_english_content.py:395-404 | then each path names at most one token |
| `JsonMask.AllowedIsExact` | scripts/check_english_content.py:364-380 | a path is allowed exactly when the declared producer matches and it is the text of a retained source in its own group |

## Left out

- Ownership and permission checks beyond the modes the protocols branch on, `O_NOFOLLOW` walking, fsync durability and the system calls themselves: a directory is a map and each call one atomic step.
- SHA-256, HMAC and JSON bytes beyond being canonical and injective.
- Update in place of directory trees: normalising, sealing and making writable are functions on trees, so a crash in the middle of one of them appears in `SeedProtocol` as an arbitrary change of the candidate, not as a particular intermediate tree.
- The store's publication, collection and cohort protocols are step machines on values, not classes: what matters in them is the order of steps of several processes, which a sequential method cannot show.
- The `lifecycle.lock` pair of the seed store is taken to exist; its own publication is `LockPublication`.
- Failing system calls while a recovery runs, other than as an exception or crash at that point; owners and foreign entries that deletion refuses.
- The budgets of deleting a volatile directory while a candidate is normalised, and the time limit of the bounded cleanup that removes cohorts and failed candidates.
- Structural failures of `_scan_candidate`, gitdir checks and the collector's report counters; a cleanup subprocess that survives its controller.
- Whether an epoch restored only because it was named on the command line is still whole: a crash may have left a partly deleted tombstone.
- An exception that strikes while a candidate is being removed, or that `except Exception` does not catch, is covered as a crash at that point.
- The environment, toolchain and capsule checks around a checkpoint lookup; metadata stamps are assumed to change with every edit.
- The termination of process groups, signal handling, heartbeats and exit codes of build stages.
- The floating-point ratios of `aggregate`: a report is the injective image of its arms and authority.
- Forwarding of diagnostic output to the terminal, and lines whose JSON nests too deeply to be read.
- RustMask.MaskIsExact: a lone carriage return inside a string literal is blanked, so line numbers that count it are not promised.
- JsonMask.MaskingIsPathExact: speaks of documents by their syntax trees; that the JSON reader accepts exactly such texts, and how it decodes escapes, is a parameter, and decoded texts hold no lone surrogates.
- JsonMask.AllowedIsExact: which entry counts as a retained source (field checks and digests) is a parameter.
- FullScan.FullScan: a `u32` is the set of its one bits, and the shift is that of an optimised build.
- The worklist reachability kernel and the rest of the Rust crate, release packaging, smoke and pilot scripts, site and PDF builders, session garbage collection and quarantine: plumbing, user interface or field checks that would only add easy members.
