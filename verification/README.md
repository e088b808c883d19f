# Klio: verified models of archiving, retention, prefetch and queueing

Klio archives the write-ahead log (WAL) and the base backups of PostgreSQL clusters on two tiers.
This project models the parts of it that carry state or arithmetic behind a strong promise, and
proves those promises for every input, every reachable state or every run.

| file | what it models |
|---|---|
| `WalNames.dfy`, `SegmentNames.dfy` | WAL file names: Go's string order, shapes, the `.partial` suffix, archive placement, hexadecimal segment arithmetic |
| `WalStore.dfy` | the two-level WAL archive of a cluster: pruning directory by directory, lookup of the latest WAL |
| `WalRetention.dfy` | WAL retention on one tier, interleaved with backups and archiving |
| `Sweep.dfy`, `TierRuns.dfy` | the keep-latest sweep of both tiers with the tier-1 guard, and its runs |
| `Orphans.dfy`, `OrphanRuns.dfy` | the pass that deletes abandoned uploads, and its runs |
| `WalFormat.dfy`, `WalWriter.dfy` | the WAL file format, the buffered writer, the reader |
| `Publication.dfy`, `Relay.dfy` | publication by renaming, the copy from tier 1 to tier 2 |
| `Prefetcher.dfy`, `PrefetchRuns.dfy` | the WAL prefetch cache, and its runs |
| `DeadLetter.dfy`, `Retry.dfy` | dead-letter listing and purging, retrying with merged tasks |
| `Supervisor.dfy` | the subprocess supervisor |
| `Sorting.dfy`, `Arithmetic.dfy`, `Backups.dfy` | what the others share |
| `GridPack.dfy` | the dashboard grid packer |

Code that loops or updates fields is written as methods and classes, proved against specification
functions and predicates; the lemmas are about those specifications. Protocols are step systems
(`Next`, `IsRun`), and their theorems hold for every run. I/O results, clocks, nonces and failures
are parameters of methods or free choices of steps.

## Main results

- **Retention keeps what is needed, exactly when two things hold.** Over every run of archiving,
  backups, relays and passes that remove files one by one, no pass ever works with a WAL that a
  listed backup starts before, if and only if (1) no listing skips a backup older than those it
  keeps, or it leads to no pruning, and (2) no backup that completes or is relayed during a pass
  starts before the WAL the pass works with (`WalRetention.SafeRunsExactly`). Then no pass removes
  a WAL that a listed backup needs (`WalRetention.RetentionNeverRemovesRequired`,
  `WalRetention.RequiredSegmentStays`). A backup that starts no earlier than some listed one always
  meets (2). On a tier where backups are taken in the order of the log and none is relayed, (2)
  holds by itself and the backup in flight is spared as well
  (`WalRetention.RetentionSparesBackupInFlight`).
- **Both conditions can fail.** Listing backups skips metadata that cannot be decoded
  (`core/internal/client/klioclient/kopia/list.go:57-80`), and the relay to tier 2 migrates all the
  backups of a cluster whatever tier 2 has dropped already
  (`core/internal/consumer/backup.go:246-254`) while the sweep prunes the WAL of tier 2.
  `WalRetention.SkippedBackupLosesWAL` and `WalRetention.RelayedBackupLosesWAL` give, for any two
  segments, a run from the start that ends with a required WAL removed.
- **Tier 2 decides last.** With the guard on, a backup disappears from both tiers only by a tier-2
  deletion decided by tier 2's own policy (`TierRuns.LostOnlyByTier2Policy`). The guard is off
  when the cluster has no tier-2 policy: tier 1 can delete the last copy exactly when the guard is
  off and its own policy keeps a positive number
  (`TierRuns.Tier1DeletesLastExactlyWithoutGuard`).
- **Orphans.** The orphan pass finds exactly the attempts without metadata that a later-started
  completed backup supersedes, in any listing order, and never touches a live backup
  (`Orphans.LooksOrphanedIsOrphan`, `OrphanRuns.OrphanPassSparesLiveBackups`). A zero start time
  counts as unset, which makes a group's start depend on the order;
  `Orphans.GroupStartOrderIndependence` says exactly when it does not.
- **WAL files.** Writing then reading gives back the file length and the chunks
  (`WalWriter.WriteFile`); reading any truncation gives whole chunks, then an end of file or an
  error (`WalFormat.ReadTruncatedFile`). A cut right behind a length prefix reads as a plain end of
  file, so not every torn frame is an error. In every run of many writers, whose steps are what
  the contracts of `Publication.Writer` promise, completed paths change only by publication
  (`Publication.CompletedFilesAreWhole`), and the tier-2 copy has the bytes of the tier-1 file
  (`Relay.WalHandler`, `Relay.CopyHasSameBytes`).
- **Archive index.** Directory-level pruning is the flat filter on names
  (`WalStore.PruneIsFlatFilter`). In every archive reached with any failures the two-level lookup
  finds the greatest stored name exactly when the greatest directory is not empty or nothing is
  stored, so it does as long as emptied directories can be removed (`WalStore.LatestInEveryRun`).
  `WalStore.EmptiedDirectoryHidesWAL` is a run after which it finds nothing although a WAL is stored.
- **Prefetching is transparent.** One writer per spool file, ready files hold the server's bytes
  until the request moves them away, and a request delivers what a direct download would
  (`PrefetchRuns.DeliversWhatServerHolds`). The names it prefetches are those of the following
  segments, for every segment size that divides 4 GiB (`Prefetcher.UpcomingSegments`); at the very
  end of the log space the printed name has 25 digits and is not a WAL name.
- **Dead letters.** Exhausted messages keep an advisory in every run with any number of purges
  stopped anywhere (`DeadLetter.ExhaustedMessagesKeepAdvisory`). In every such run the listing of
  failed tasks changes at one step of a purge only, and there to what it is after the purge
  (`DeadLetter.PurgeShowsBeforeOrAfter`); a purge that was stopped can be run again
  (`DeadLetter.RerunCompletes`). A listing that is not an error misses nothing that is still there,
  however the stream changes while it is read (`DeadLetter.ListingMissesNothing`).
- **Supervisor.** At most one process, no start after a stop. The wait period separates the
  decisions to restart, not the starts: with requests served within some delay, the largest gap
  that every run keeps between automatic starts is the wait period less the delay
  (`Supervisor.GapExactly`), which is the wait period itself if and only if one of the two is zero
  (`Supervisor.WaitPeriodSeparatesStarts`).
- **Packing.** The grid packer tiles the grid exactly and needs the fewest rows
  (`GridPack.TilesExactly`, `GridPack.FewestRows`).

## Assumptions

- A complete segment name is 24 hexadecimal digits of either case. The helper that decides this,
  and the one that maps a segment name to its first LSN, are in a library outside the repository.
- Unwrapping undoes wrapping; wrapping may fail and may give a different result each time.
- Backups of a cluster run one at a time, under fresh names; the orphan pass also relies on
  increasing start times. One sweeper runs at a time.
- The content of a complete WAL file on the server does not change; a partial one may.
- Requests to the prefetcher come one at a time, for names that are not partial names.
- Queue sequence numbers are not reused, and a message that exceeds its deliveries leads to one
  advisory.

## Model

| member | source | states |
|---|---|---|
| `WalNames.TrimPartialSuffix` | core/internal/wal/filename.go:45-48 | removes exactly the suffix when it is there, and nothing otherwise |
| `WalNames.WithPartialSuffix` | core/internal/wal/filename.go:50-57 | the result ends with the suffix, has the same name without it, and is not suffixed twice |
| `WalNames.StemLength` | core/internal/repository/wals.go:49-53 | the extension starts at the last dot; no dot means no extension |
| `WalNames.ValidNamesHaveParts` | core/internal/repository/validate.go:30-43 | the valid names are exactly a timeline and a position, alone, with an offset and ".backup", or with ".partial", and a timeline with ".history", all hexadecimal |
| `WalNames.ValidNamesPlacement` | core/internal/repository/wals.go:49-56 | a valid name is at least 16 characters long, and gets a subdirectory, the one of its first 16 characters, exactly when it is a segment or a partial |
| `SegmentNames.SpellShape` | core/internal/cnpgi/prefetcher.go:495-523 | printing a position gives 24 digits exactly when its numbers fit, and parsing the name gives the position back |
| `SegmentNames.SpellExample` | core/internal/cnpgi/prefetcher.go:522 | the 24 digits of a known position |
| `SegmentNames.SuccessorNames` | core/internal/cnpgi/prefetcher.go:495-523 | k steps from the name of a segment give the name of the segment k sizes further on the same timeline, up to the end of the log space, where the name is too long, and none beyond it |
| `SegmentNames.SegmentNameOrder` | core/internal/retention/walretention.go:63-76 | string order on segment names is the order of (timeline, LSN) |
| `WalStore.ClusterDirectory.SetFirstRequired` | core/internal/repository/retention.go:36-85 | the effect of a whole pass on every directory, whatever deletions and listings fail; an error, and no effect, exactly when the cluster directory cannot be listed |
| `WalStore.ClusterDirectory.SetFirstRequiredOnDirectory` | core/internal/repository/retention.go:87-154 | exactly the obsolete names go, the emptied directory goes, other directories stay |
| `WalStore.ClusterDirectory.RemoveIfObsolete` | core/internal/repository/retention.go:102-135 | a segment goes exactly when it is below the first required WAL and can be deleted, its partial likewise, and no other entry goes |
| `WalStore.ClusterDirectory.GetLatestWALFile` | core/internal/repository/wals.go:75-134 | the greatest name in the greatest directory; empty without a cluster directory; an error exactly when one of the two directories cannot be listed |
| `WalStore.GreatestName` | core/internal/repository/wals.go:96-105 | the running maximum is the greatest name |
| `WalStore.PruneRemovesOnlyObsolete` | core/internal/repository/retention.go:36-154 | in any archive and under any failures, nothing but older segments and partials is removed, and nothing is moved |
| `WalStore.PruneIsFlatFilter` | core/internal/repository/retention.go:36-154 | the directory-level pass equals the flat filter on names if and only if every obsolete file is in a directory the pass enters |
| `WalStore.PruneLayoutIsFlatFilter` | core/internal/repository/retention.go:36-154 | in the archive layout the pass is the flat filter; history and backup-label files stay |
| `WalStore.ObsoleteNames` | core/internal/repository/retention.go:116-127 | the obsolete names are exactly the segments below the first required WAL and the partials of such segments |
| `WalStore.PruneByName` | core/internal/repository/retention.go:36-154 | without failures, in the layout, a segment stays exactly when it was stored and is not below the first required WAL, its partial likewise, and every other file stays |
| `WalStore.PruneWithFaults` | core/internal/repository/retention.go:36-154 | with any failures a file of the layout goes exactly when it is below the first required WAL, can be deleted, and is in a directory that can be listed |
| `WalStore.PruneKeepsLayout` | core/internal/repository/retention.go:36-154 | a pass keeps the layout whatever fails |
| `WalStore.PruneLeavesNoEmptyDirectory` | core/internal/repository/retention.go:139-151 | a pass leaves an empty directory behind exactly when it emptied one it could not remove |
| `WalStore.LookupIsLatest` | core/internal/repository/wals.go:75-134 | in the archive layout the two-level lookup finds the greatest of all stored segments and partials if and only if the greatest directory is not empty or none is stored |
| `WalStore.RetentionKeepsLatest` | core/internal/repository/wals.go:75-134 | where the lookup is right, retention up to the latest WAL does not change its answer, whatever deletions fail |
| `WalStore.WriterNamesInPlace` | core/internal/repository/writer.go:84-98 | both names a writer uses belong where the archive path puts its file |
| `WalStore.WritesAreStored` | core/internal/repository/writer.go:84-154 | a write leaves its file in place, a publication leaves the completed file and not the partial one, and no other name changes |
| `WalStore.LatestInEveryRun` | core/internal/repository/wals.go:75-134 | in every archive reached by writes, publications and retention with any failures the lookup is right if and only if the greatest directory is not empty or no WAL is stored, and always while emptied directories could be removed |
| `WalStore.LayoutInEveryRun` | core/internal/repository/writer.go:84-154 | every such archive is in the layout, and has no empty directory while emptied ones could be removed |
| `WalStore.EmptiedDirectoryHidesWAL` | core/internal/repository/retention.go:144-151 | for any two segments in different directories, a run after which the lookup finds nothing although one of them is stored |
| `WalRetention.FindOldestWAL` | core/internal/retention/walretention.go:63-76 | the least non-empty StartWAL, empty exactly when no backup has one |
| `WalRetention.OldestIsNumericMinimum` | core/internal/retention/walretention.go:63-76 | on canonical names the string minimum is the numeric one |
| `WalRetention.ApplyWALRetention` | core/internal/retention/walretention.go:36-59 | prunes with the oldest StartWAL; does nothing without a repository, a listing, a StartWAL, a valid name or a directory that can be listed, and says which of these is an error |
| `WalRetention.SafeListingIsSafe` | core/internal/client/klioclient/kopia/list.go:57-80 | after a listing no listed backup starts before the pass's WAL, if and only if the listing skips nothing older than what it keeps or leads to no pruning |
| `WalRetention.StepIsSafe` | core/internal/retention/sweep.go:118-148 | a step keeps the pass at or before every listed backup if and only if it meets its condition: on the listing, or on the StartWAL of a backup that completes or is relayed |
| `WalRetention.NotBelowListedIsSafe` | core/internal/retention/walretention.go:36-59 | a backup that starts no earlier than some listed one meets the condition |
| `WalRetention.SafeRunsExactly` | core/internal/retention/walretention.go:36-76 | a run never has a pass that a listed backup starts before if and only if every step of it meets its condition |
| `WalRetention.RetentionNeverRemovesRequired` | core/internal/retention/walretention.go:36-76 | in every run whose steps meet their conditions no step of a pass removes a file that a listed backup needs |
| `WalRetention.RequiredSegmentStays` | core/internal/retention/walretention.go:36-76 | in every such run a segment stays for as long as a listed backup needs it |
| `WalRetention.InOrderIsSafe` | core/internal/retention/walretention.go:36-76 | where backups are taken in the order of the log and none is relayed, the condition on listings implies all the others |
| `WalRetention.RetentionSparesBackupInFlight` | core/internal/retention/walretention.go:36-76 | in every such run no step of a pass removes a file that the backup in flight needs |
| `WalRetention.SafeExactlyWhenNothingIsLost` | core/internal/retention/walretention.go:36-76 | with bare StartWALs a pass can remove no required WAL, whatever is archived, if and only if no listed backup starts before it |
| `WalRetention.SafeExactlyWithoutOlderSkips` | core/internal/client/klioclient/kopia/list.go:57-80 | the pass after a listing can remove no required WAL if and only if the listing skips nothing older than what it keeps or leads to no pruning |
| `WalRetention.SafeExactlyWithoutOlderRelays` | core/internal/consumer/backup.go:225-259 | after a relay the pass in progress can remove no required WAL if and only if the relayed backup does not start before it |
| `WalRetention.SkippedBackupLosesWAL` | core/internal/client/klioclient/kopia/list.go:57-80 | for any two segments, a run from the start in which a listing skips one undecodable backup and the pass removes that backup's first WAL |
| `WalRetention.RelayedBackupLosesWAL` | core/internal/consumer/backup.go:225-259 | for any two segments, a run from the start in which an older backup is relayed during a pass and the pass removes its first WAL |
| `Sweep.SortByAscendingTime` | core/internal/client/klioclient/restore.go:119-129 | an ordered permutation |
| `Sweep.Evaluate` | core/internal/policy/policy.go:42-54 | everything when the count is zero; otherwise as many as the count or the list allows, and nothing that is dropped is newer than anything kept |
| `Sweep.KeepsNewest` | core/internal/policy/policy.go:42-54 | the same of every outcome the policy allows, whatever the order of equal times |
| `Sweep.DroppedExactly` | core/internal/retention/sweep.go:356-370 | with distinct names the dropped backups are exactly all but the newest N: how many, and none newer than one that stays |
| `Sweep.DroppedIsOutsideNewest` | core/internal/policy/policy.go:42-54 | what the policy drops has at least as many kept backups as the policy asks for, none of them older |
| `Sweep.DiffByName` | core/internal/retention/sweep.go:356-370 | exactly the backups whose name is not kept, in order |
| `Sweep.ProtectUnsyncedToTier2` | core/internal/retention/sweep.go:313-337 | exactly the candidates that tier 2 lists, and an error when tier 2 cannot be listed |
| `Sweep.DeletionCandidates` | core/internal/retention/sweep.go:276-307 | with distinct names exactly all but the newest N or, when guarded, exactly those of them that tier 2 lists; an error exactly when guarded and tier 2 cannot be listed |
| `Sweep.BackupStore.DeleteBackups` | core/internal/retention/sweep.go:242-260 | a backup goes exactly when it is a target and its deletion does not fail, the rest is unchanged, and deletions and errors add up to the targets |
| `Sweep.SweepCluster` | core/internal/retention/sweep.go:176-237 | what ends the sweep before it deletes; otherwise it removes exactly the deletion candidates except the failing ones, and is an error exactly when not all of them were deleted; nothing goes when tier 2 has to be asked and cannot be listed |
| `Sweep.SweepTiers` | core/internal/retention/sweep.go:76-112 | both tiers are swept whatever happens on tier 1, tier 2 only when there is one, and tier 1 then loses only what tier 2 lists, if the cluster has a tier-2 policy |
| `TierRuns.DecidedIsOutsideNewest` | core/internal/retention/sweep.go:276-337 | what a pass decides to delete is outside the newest N of the tier it listed and, when guarded, on the other tier |
| `TierRuns.GuardHoldsThroughout` | core/internal/retention/sweep.go:76-112 | in every guarded run what the tier-1 pass is deleting is on tier 2 all along |
| `TierRuns.Tier1DeletionLeavesTier2Copy` | core/internal/retention/sweep.go:76-112 | with the guard a tier-1 deletion leaves the copy on tier 2 |
| `TierRuns.LostOnlyByTier2Policy` | core/internal/retention/sweep.go:76-112 | a backup vanishes from both tiers only by a tier-2 deletion, after a tier-2 pass found it outside tier 2's newest N |
| `TierRuns.Tier1DeletesLastExactlyWithoutGuard` | core/internal/retention/sweep.go:289-291 | no run deletes a tier-1 backup that is not on tier 2, if and only if the guard is on or tier 1 has no policy that keeps a positive number |
| `TierRuns.UnguardedRun` | core/internal/retention/sweep.go:289-291 | without the guard, for every positive count, a run in which tier 1 deletes a backup tier 2 never had |
| `Orphans.GroupBackupsByHostName` | core/internal/retention/orphans.go:121-157 | a group for each allowed host and name, with whether it has metadata and the start time its entries lead to |
| `Orphans.LatestCompletedStartTimePerHost` | core/internal/retention/orphans.go:161-174 | the greatest start of a completed group of each host that has one |
| `Orphans.OrphanBackupNames` | core/internal/retention/orphans.go:93-116 | without zero start times exactly the attempts without metadata of which some snapshot is strictly earlier than every snapshot of a completed backup of the same host |
| `Orphans.LooksOrphanedIsOrphan` | core/internal/retention/orphans.go:73-116 | without zero start times that is exactly the set of superseded attempts, a property of the set of entries and not of their order |
| `Orphans.GroupHostnames` | core/internal/retention/sweep.go:390-403 | the hosts of the entries, each once |
| `Orphans.PrefilterChangesNothing` | core/internal/retention/orphans.go:84-92 | restricting to hosts with a completed backup leaves out no orphan |
| `Orphans.GroupStartOrderIndependence` | core/internal/retention/orphans.go:151-153 | a group's start is its earliest time in every listing order, if and only if no zero is mixed with positive times alone |
| `Orphans.ZeroStartDependsOnOrder` | core/internal/retention/orphans.go:151-153 | two listings of the same times that lead to different starts |
| `OrphanRuns.OrphanIsAbandoned` | core/internal/retention/orphans.go:84-92 | with one attempt in flight per host, an orphan is neither in flight nor completed |
| `OrphanRuns.StepKeepsInvariant` | core/internal/retention/orphans.go:44-71 | every step of attempts, retention and orphan passes keeps the snapshots of the attempt in flight newer than all others of its host |
| `OrphanRuns.OrphanPassSparesLiveBackups` | core/internal/retention/orphans.go:44-71 | in every run the orphan pass deletes no attempt in flight, no completed backup and none of their snapshots |
| `WalFormat.Fixed64RoundTrip` | core/internal/repository/reader.go:160-168 | a length below 2^64 is read back from its eight bytes |
| `WalFormat.LittleEndianByte` | core/internal/repository/writer.go:303-309 | byte k of a length is the length divided by 256^k, modulo 256 |
| `WalFormat.VarintRoundTrip` | core/internal/repository/writer.go:192-194 | a varint is read back, with what follows it |
| `WalFormat.VarintByte` | core/internal/repository/writer.go:192-194 | byte k of a varint holds the k-th seven bits, and is marked unless it is the last |
| `WalFormat.HeaderRoundTrip` | core/internal/repository/reader.go:71-99 | the header is read back, with what follows it |
| `WalFormat.HeaderBytes` | core/proto/klio_wal.proto:164-167 | the bytes of the header without a length, and with one of 16 MiB |
| `WalFormat.NumberField` | core/internal/repository/reader.go:71-88 | a number in field 2 is the length, the last one wins, and a number in any other field is skipped |
| `WalFormat.BytesField` | core/internal/repository/reader.go:71-88 | a field of bytes is skipped with its content |
| `WalFormat.FixedField` | core/internal/repository/reader.go:71-88 | a field of fixed width is skipped with its content |
| `WalFormat.HeaderCut` | core/internal/repository/reader.go:71-88 | a file cut inside its header is missing if it is empty, and unreadable otherwise |
| `WalFormat.ReadCutFrame` | core/internal/repository/reader.go:160-175 | a cut frame is never a block; it is a plain end of file exactly when nothing of it or just its length is there |
| `WalFormat.ReadTruncated` | core/internal/repository/reader.go:113-175 | any truncation of the frames reads as the whole frames in it, then an end of file or an error, and which |
| `WalFormat.ReadWritten` | core/internal/repository/reader.go:53-175 | header and frames read back as the length and the blocks |
| `WalFormat.ReadTruncatedFile` | core/internal/repository/reader.go:53-175 | any prefix of a written file reads as nothing usable, or as its length and a prefix of its blocks |
| `WalFormat.AllChunksJoin` | core/internal/repository/writer.go:235-289 | chunks have from 1 to 2^20 bytes and join to what the blocks join to |
| `WalFormat.ChunksAreFull` | core/internal/repository/writer.go:235-250 | every chunk of a block but the last has 2^20 bytes, and there are as many as that takes |
| `WalWriter.BufferedFile.Flush` | core/internal/repository/writer.go:206-216 | a successful flush leaves everything on disk; a failed buffer stays failed |
| `WalWriter.BufferedFile.Write` | core/internal/repository/writer.go:303-319 | the disk is always a prefix of the stream, and grows only |
| `WalWriter.DirectWriter.constructor` | core/internal/repository/writer.go:178-203 | the writer starts with the header in its stream |
| `WalWriter.DirectWriter.WriteBlockData` | core/internal/repository/writer.go:303-319 | one frame more in the stream, and one chunk more exactly when nothing failed |
| `WalWriter.DirectWriter.WriteBlock` | core/internal/repository/writer.go:235-289 | success appends the chunks of the block, failure a prefix of them, and only a wrapper or file failure is a failure |
| `WalWriter.DirectWriter.Flush` | core/internal/repository/writer.go:206-216 | succeeds exactly when the buffer can be written and the sync works, and then the disk is the header and all frames |
| `WalWriter.DirectWriter.Close` | core/internal/repository/writer.go:219-229 | succeeds only when closing works, and then the disk is the header and all frames; a second close fails and changes nothing |
| `WalWriter.WriteFile` | core/internal/repository/writer.go:178-289 | any blocks, written and closed, read back as the file length and their chunks, unless wrapping or closing fails or the file is full |
| `WalWriter.Reader.ReadBlock` | core/internal/repository/reader.go:113-175 | one read gives the next block, end of file or error, and leaves the rest |
| `Publication.FileSystem.Rename` | core/internal/repository/writer.go:141-154 | a successful rename moves the file over its target, a failed one changes nothing |
| `Publication.PathsInArchive` | core/internal/repository/writer.go:84-98 | a writer works in the directory of its cluster, for segments in the one of the first 16 characters, under the bare name with the suffix, and completes under the bare name |
| `Publication.PathsAreSeparate` | core/internal/repository/writer.go:84-98 | two writers share a path exactly when they are for the same file of the same cluster |
| `Publication.Writer.constructor` | core/internal/repository/writer.go:84-98 | the writer starts on the partial path and changes no other |
| `Publication.NewWriter` | core/internal/repository/writer.go:84-137 | no writer when the file cannot be opened, a writer on the partial path when it can and has room for the header; no other path changes |
| `Publication.Writer.WriteBlock` | core/internal/repository/writer.go:171-174 | writing changes the writer's own partial file only, which stays a prefix of what it wrote, and a closed file not at all |
| `Publication.Writer.Flush` | core/internal/repository/writer.go:161-164 | succeeds exactly when the buffer can be written and the sync works, and then the partial file is the header and all frames; no other path changes |
| `Publication.Writer.Close` | core/internal/repository/writer.go:166-169 | succeeds only when closing works, and then the partial file is the header and all frames; no other path changes, and no chunk is added |
| `Publication.Writer.CloseMarkDone` | core/internal/repository/writer.go:141-154 | succeeds only when closing and renaming work, and then a file that reads back as every chunk written before is at the completed path; failure changes the partial file only, and has a cause |
| `Publication.StepKeepsInvariant` | core/internal/repository/writer.go:84-174 | every step that the contracts of the writer allow keeps each open writer's file its own and a prefix of what it wrote |
| `Publication.CompletedFilesAreWhole` | core/internal/repository/writer.go:84-174 | in every run of many writers a path without the suffix changes only by a successful publication, and then reads back as every chunk of its writer |
| `Relay.WalHandler` | core/internal/consumer/wal.go:91-179 | without error the tier-2 file was opened and closed, holds the length and the chunks of what tier 1 reads as, and the written size is their exact total; every error has a cause |
| `Relay.Copy` | core/internal/consumer/wal.go:161-178 | the loop copies every block up to a plain end of file and adds up their sizes |
| `Relay.CopyHasSameBytes` | core/internal/consumer/wal.go:91-179 | the copied chunks join to the bytes of the read blocks |
| `Relay.LatestWrittenLSNInSegment` | core/internal/consumer/wal.go:223-240 | for 1 to segment-size bytes the reported LSN is the last byte written, inside the segment |
| `Prefetcher.UpcomingSegments` | core/internal/cnpgi/prefetcher.go:470-523 | the names triggered for prefetch are those of the following segments, up to the end of the log space |
| `Prefetcher.EnsureAllMeans` | core/internal/cnpgi/prefetcher.go:479-490 | ensuring downloads gives exactly the names without an entry a new one, with its download queued, and leaves the others |
| `Prefetcher.WalPrefetcher.constructor` | core/internal/cnpgi/prefetcher.go:105-129 | starts empty, with the given count, or with two when that is not positive |
| `Prefetcher.WalPrefetcher.StartDownloadLocked` | core/internal/cnpgi/prefetcher.go:345-390 | a new entry for the name, with its download queued |
| `Prefetcher.WalPrefetcher.AcquireEntry` | core/internal/cnpgi/prefetcher.go:191-214 | reuses a live entry, retries a failed one, and reports a hit exactly for a finished prefetch |
| `Prefetcher.WalPrefetcher.CleanupEntry` | core/internal/cnpgi/prefetcher.go:533-538 | forgets the entry of one name |
| `Prefetcher.WalPrefetcher.DownloadEnds` | core/internal/cnpgi/prefetcher.go:396-438 | the entry becomes ready or failed and its download ends |
| `Prefetcher.WalPrefetcher.DownloadLearns` | core/internal/cnpgi/prefetcher.go:427-433 | only a segment teaches its size |
| `Prefetcher.WalPrefetcher.LearnSegmentSize` | core/internal/cnpgi/prefetcher.go:441-467 | the first positive size that can be read is kept for good |
| `Prefetcher.WalPrefetcher.TriggerPrefetch` | core/internal/cnpgi/prefetcher.go:470-491 | exactly the upcoming names get an entry; one that had none has a new one that is downloading, with its download queued; what was there is untouched |
| `PrefetchRuns.StartKeepsInvariant` | core/internal/cnpgi/prefetcher.go:345-390 | starting a download for a name without a live entry keeps one writer per spool file |
| `PrefetchRuns.DownloadStepKeepsInvariant` | core/internal/cnpgi/prefetcher.go:255-282 | every step of a download keeps its spool file a prefix of the server's bytes and the other files as they are |
| `PrefetchRuns.RequestStepKeepsInvariant` | core/internal/cnpgi/prefetcher.go:135-251 | every step of a request keeps what ready entries, hits and missing files stand for |
| `PrefetchRuns.RunKeepsInvariant` | core/internal/cnpgi/prefetcher.go:135-491 | the invariant holds throughout every run of requests, downloads and server changes |
| `PrefetchRuns.OneWriterPerSpoolFile` | core/internal/cnpgi/prefetcher.go:345-390 | in every run two downloads never write to the same spool file |
| `PrefetchRuns.ReadyMeansDownloaded` | core/internal/cnpgi/prefetcher.go:396-438 | in every run the file of a ready entry holds the server's bytes for its name, until the request has moved it away |
| `PrefetchRuns.DeliversWhatServerHolds` | core/internal/cnpgi/prefetcher.go:135-251 | in every run a successful request delivers the complete file's content or, after that was found missing, the partial file; a hit was prefetched before the request began |
| `PrefetchRuns.MissingLeadsToPartial` | core/internal/cnpgi/prefetcher.go:152-168 | in every run a request whose complete file is missing goes on to the partial one exactly when the name has no extension; any other failure ends it |
| `PrefetchRuns.HitExactly` | core/internal/cnpgi/prefetcher.go:191-214 | in every run a request reports a hit exactly when it begins with a finished prefetch of its name waiting, and joins a download that has not failed |
| `PrefetchRuns.ReadyCanBeDelivered` | core/internal/cnpgi/prefetcher.go:220-250 | in every run a request whose download is ready can deliver the server's bytes at once, with the hit it found |
| `PrefetchRuns.RequestGoesOn` | core/internal/cnpgi/prefetcher.go:135-251 | in every run what a request does after the rename: drop the entry and prefetch or, if it failed, drop the entry, remove the file and download directly |
| `DeadLetter.DrainDLQPager` | core/internal/queue/manager.go:733-779 | all advisories up to the first other event; an error exactly when that is a failure or fewer than expected were read |
| `DeadLetter.SortNewestFirst` | core/internal/queue/manager.go:721-724 | a permutation, newest first |
| `DeadLetter.ListPager` | core/internal/queue/manager.go:667-727 | one entry for each advisory that points at a stored task of the cluster and no other, newest first; an error exactly when reading falls short or a message cannot be read or decoded |
| `DeadLetter.ListedExactly` | core/internal/queue/manager.go:684-719 | which advisories are listed, and when the listing fails |
| `DeadLetter.ListingMissesNothing` | core/internal/queue/manager.go:733-779 | a listing that read as many advisories as were counted has every counted one that is still there, however the stream changes meanwhile |
| `DeadLetter.StreamManager.PurgeEntry` | core/internal/queue/manager.go:551-600 | a purge deletes the message and its advisory, and no other message or advisory; a failed one has done nothing, only the first, or both |
| `DeadLetter.StreamManager.PurgeEntries` | core/internal/queue/manager.go:461-501 | failures do not stop the rest, and other messages and advisories stay |
| `DeadLetter.PurgeResumes` | core/internal/queue/manager.go:551-600 | purging again after the first deletion, or after both, reaches the state of one whole purge |
| `DeadLetter.ListingNeverInBetween` | core/internal/queue/manager.go:551-600 | the listing between the two deletions is the one after both |
| `DeadLetter.PurgeShowsBeforeOrAfter` | core/internal/queue/manager.go:551-600 | in every run no step of a purge changes the listing of any cluster, except the one that deletes the message, which changes it to the listing after the purge |
| `DeadLetter.LonePurgePhase` | core/internal/queue/manager.go:551-600 | at every point of a purge with nothing else in between the streams are as before, without the message, or as after the whole purge |
| `DeadLetter.RerunCompletes` | core/internal/queue/manager.go:551-600 | in every run a purge stopped anywhere and run again to its end leaves the streams as an uninterrupted purge |
| `DeadLetter.StepKeepsInvariant` | core/internal/queue/queue.go:392-407 | every step of publishing, acknowledging, exhausting and purging keeps advisories and purges matched to their messages |
| `DeadLetter.ExhaustedMessagesKeepAdvisory` | core/internal/queue/queue.go:138-192 | in every run each stored message that exhausted its deliveries has an advisory |
| `DeadLetter.FailedTaskIsListed` | core/internal/queue/manager.go:667-727 | a stored task with an advisory is in the listing of its cluster |
| `Retry.MergeBackupTasks` | core/internal/queue/manager.go:337-348 | relay to tier 2 is the OR of all, the policy is the common value of those that set one, or blank |
| `Retry.MergeOneMore` | core/internal/queue/manager.go:355-366 | one more candidate keeps the agree-or-blank state of the merge |
| `Retry.MergeOrderIndependent` | core/internal/queue/manager.go:337-366 | the merged task does not depend on the order of the failed ones |
| `Retry.MergeMeans` | core/internal/queue/manager.go:337-348 | what a merged task says of the failed tasks of its cluster |
| `Retry.EnqueueBackupTasks` | core/internal/queue/manager.go:300-326 | exactly one task per cluster, relayed if any failed one is, with the policy they agree on, or as many as the queue accepted before it failed |
| `Retry.RetryOrderIndependent` | core/internal/queue/manager.go:300-326 | a complete retry publishes the same tasks in whatever order the failed ones come |
| `Retry.EnqueueWALTasks` | core/internal/queue/manager.go:273-296 | every distinct failed task once, or as many as the queue accepted before it failed |
| `Supervisor.Service.Start` | core/internal/supervisor/supervisor.go:70-85 | fails exactly when a process is there, and makes at most one request pending |
| `Supervisor.Service.Stop` | core/internal/supervisor/supervisor.go:89-106 | fails exactly when no process is there, and records the request |
| `Supervisor.Service.ReceiveAndStart` | core/internal/supervisor/supervisor.go:147-163 | takes the request and starts one process, with a clean record |
| `Supervisor.Service.ProcessFinished` | core/internal/supervisor/supervisor.go:163-172 | records the end of the process |
| `Supervisor.Service.TriggerRestartWhenNeeded` | core/internal/supervisor/supervisor.go:174-209 | restarts exactly a process that ended by itself, once the wait period is over |
| `Supervisor.AtMostOneProcess` | core/internal/supervisor/supervisor.go:70-172 | in every run at most one process runs, and none while a request is pending |
| `Supervisor.NoStartAfterStop` | core/internal/supervisor/supervisor.go:89-209 | in every run no process starts after a successful stop until the caller asks for one |
| `Supervisor.StartIsHonoured` | core/internal/supervisor/supervisor.go:70-172 | in every run, after a stop or not, a successful call of the caller leaves a start pending until it is served, and serving it starts the process |
| `Supervisor.EndedProcessIsRestarted` | core/internal/supervisor/supervisor.go:174-209 | in every run a process that ended by itself is restarted by a tick that is a wait period after all earlier restarts |
| `Supervisor.RestartsAreApart` | core/internal/supervisor/supervisor.go:174-209 | in every run two automatic restarts are decided at least the wait period apart |
| `Supervisor.RestartIsRequested` | core/internal/supervisor/supervisor.go:174-209 | in every run a decided restart leaves a start pending |
| `Supervisor.StartsAreApart` | core/internal/supervisor/supervisor.go:110-209 | in every run two automatic starts are apart by the wait period less what the first of them waited to be served |
| `Supervisor.GapExactly` | core/internal/supervisor/supervisor.go:110-209 | with requests served within a delay, a gap holds between automatic starts in all runs if and only if it is at most the wait period less the delay, or zero |
| `Supervisor.WaitPeriodSeparatesStarts` | core/internal/supervisor/supervisor.go:110-209 | the wait period separates automatic starts in all runs if and only if restarts are off, or the delay or the wait period is zero |
| `Supervisor.CloseStarts` | core/internal/supervisor/supervisor.go:110-209 | for every delay and wait period, a run whose automatic starts are no further apart than that |
| `GridPack.SharesFillRow` | observability/grafana/build.go:292-303 | the slack-distribution formula fills a row that fits, so the override of the last panel agrees with it |
| `GridPack.SlackIsEven` | observability/grafana/build.go:292-299 | no panel gets two columns of slack more than another, and an earlier one never less |
| `GridPack.PlaceRow` | observability/grafana/build.go:284-303 | panels side by side from edge to edge, as high as the highest, with the slack spread evenly |
| `GridPack.EndOfRow` | observability/grafana/build.go:275-283 | a row ends where the next panel would not fit; a panel wider than the grid is alone |
| `GridPack.Pack` | observability/grafana/build.go:271-308 | all panels in order, in stacked rows, each ended by the greedy rule |
| `GridPack.PanelsKeepOrderAndWidth` | observability/grafana/build.go:271-308 | panels keep their order, and one that is not wider than the grid gets at least its width |
| `GridPack.TilesExactly` | observability/grafana/build.go:271-308 | every cell of the grid down to the last row is covered by exactly one panel |
| `GridPack.StaysInside` | observability/grafana/build.go:271-308 | no panel reaches outside the grid |
| `GridPack.FewestRows` | observability/grafana/build.go:271-308 | no order-preserving split into rows of at most 24 columns has fewer rows |

## Left out

- Kopia, S3, gRPC, NATS, OpenTelemetry, Kubernetes and command-line code: wrappers over libraries.
- Cryptography and compression: only that unwrapping undoes wrapping.
- Protobuf headers with group fields: the parser of the model rejects them, the library skips them.
- A corrupted block length that is too large to allocate: the program stops there, the model reports an error.
- Sweep.Evaluate: works on values, so the sort of the caller's copy in place is not captured; backups with equal times may come in any order.
- DeadLetter.SortNewestFirst: works on values; tasks with equal timestamps may come in any order.
- PrefetchRuns.RequestStepKeepsInvariant: says nothing about several requests at once, about deadlock, or about requests for partial names.
- Any claim that tier-1 WAL retention waits for the tier-2 upload: the code does not wait.
- Any claim that dead-lettered backup tasks survive a later successful backup: success purges all entries of the cluster.
- Deletions of backups by users, and changes of the policies while a sweep runs.
- The refresh of the Kopia server cache and the joining of errors across clusters.
- Configuration validation, exit codes, metrics, the configuration watcher, tier selection, the draining of the legacy queue: easy members.
