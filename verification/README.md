# Verification of durable state, caches, publication and text kernels

A Dafny model of the parts of the system whose correctness spans more than one call: protocols that write files in
an order chosen so that a crash anywhere can be repaired, caches whose names share inodes, publishers that race each
other, and the algorithmic kernels beside them. `dafny verify dfyconfig.toml` checks everything.

## What is modelled

**Project activation** (`Session`, `SessionRules`, `Activation`, `ActivationSafety`, `ActivationOutcome`,
`RecoveryOutcome`, `RecoveryAnswers`, `ProjectStore`). The install session and its marks; a project as four durable
cells (journal, staged manifest, lock, manifest); activation and recovery as scripts of durable operations, any prefix
of which may be all that happens. The main theorem holds over every run of activations and recoveries, each stopped
anywhere. It needs the target lock to differ from the current one (or the manifest to stay the same), and what recovery
reads to fit its limits and parse: `RecoveryNeverFailsIff` shows that this is exactly the condition,
`ActivationCompletesIff` which activations complete, and `UnchangedLockStrandsRecovery` the run that fails without it.
`RecoveryAnswers` says what each answer of a recovery means. `AtomicIo` justifies writing a file as one operation.

**Artifact cache** (`ArtifactCache`, `CacheSafety`, `CacheProgress`, `StagingRules`, `ArtifactStore`). Names lead to
inodes and inodes hold bytes, so that a partial and a published artifact can be the same file. Staging (resume,
restart, fresh download) and promotion are scripts of file operations down to single appended bytes. Published bytes
never change when the plan knows the size; `PublishedIsKeptIff` says for every plan exactly when they can.
`StagingCompletesIff` says exactly from which files staging can still complete, and `StrandedForever` that the others
stay as they are.

**Group memory** (`GroupRegion`, `RegionLayout`, `GroupLeases`, `GroupMemory`). The header and payload bytes, the
two-step reservation of a generation, and any interleaving of processes that lease, write, commit, drop or die.

**Publication** (`BinaryMetadata`, `PublishRefs`, `RefPublisher`, `PublicationRules`, `ReleaseRefresh`, `ReleaseNames`,
`ReleasePublisher`, `BinaryParts`, `BinaryRules`, `PartStore`). Publishers that read refs, compare and push under
leases, in any interleaving and with answers that get lost; the release refresh as service calls that may stop after
any of them, with broken uploads left behind; parts of binaries, their manifest and their reassembly over short reads.

**Kernels** (`Calendar`, `RedactionPass`, `Redaction`, `RedactionRuns`, `RedactedKinds`, `RedactTwice`,
`BlockRedaction`, `UserinfoRedaction`, `RedactedRanges`, `RedactionTrace`, `WholeRedaction`, `RedactionGuards`,
`UserinfoGuards`, `RedactionExamples`, `ValueGrammar`, `Redactor`, `RegistryCrawl`, `SourceTree`, `PathWalk`,
`TreeListing`, `Utf8Text`, `TreeAcceptance`, `WorkspaceArchive`, `ArchiveRules`, `ArchiveExtraction`,
`ArchiveDestination`, `ExtractionRules`). The closed form of a civil date, the redaction of reported texts (each pass replaces values of
its input, whole, and nothing else, as a grammar of characters describes them; exactly when a private-key header or
user information shows in the end, and guards on the text), the registry worklist, the identity of a source tree, the
parser of a tree listing, and the collision check that makes the extraction of an archive independent of order.

Code that works in steps is a class or a method with loops, proved equal to a function or plan; the theorems are about
those. A class with a `budget` stops after that many durable operations. The modules named for rules, names, layouts and
answers spell out what is accepted, what anything else is refused as, and what answers mean.

## Assumptions

- SHA-256 is any function from bytes to text. Where two texts must be told apart, exactly those two are assumed to
  have different digests (`NoCollision`); a digest is 64 lower-case hexadecimal digits where a manifest needs it.
- One installer holds a project or an artifact at a time, as the leases of the code ensure; a region handle has one
  live lease at a time.
- The canonical, case-folded spelling of an archive name works within path components (`FoldsComponents`), and the
  file system identifies two names only when their spellings agree (`IdentifiesByKey`).
- A Git push is atomic on the server. A commit is identified by its content.
- The release service behaves like the offline double in `test-binary-snapshots.py:22-56`; publishers of a release are
  serialized, as the workflow does. Whoever else edits a release adds and removes only files that match no pattern of
  the publisher (`ReleaseRefresh.Step`).
- Temporary names are not targets, and no two writers use the same one (`TmpPathOnce` says when names coincide).

## Model

| member | source | states |
|---|---|---|
| `Session.InstanceKeyInjective` | install-orchestrator/src/session.rs:375-392 | two valid (root, package, private) triples never share an instance key |
| `Session.StepMovesOnePackage` | install-orchestrator/src/session.rs:182-246 | an accepted mark moves exactly one package to its next stage and leaves everything else as it was |
| `Session.StepKeepsValid` | install-orchestrator/src/session.rs:126-176 | an accepted mark keeps the journal acceptable to validation |
| `Session.RunKeepsValid` | install-orchestrator/src/session.rs:182-246 | over any sequence of marks, accepted or rejected, the journal stays valid, keeps its target and packages, and has left Preparing exactly when all packages are Ready |
| `Session.StagesInOrder` | install-orchestrator/src/session.rs:182-246 | from a fresh journal each package is at a stage exactly by the accepted marks of all earlier stages, once each, in order, the first with its own hash |
| `Session.CommittedOnlyWhenReady` | install-orchestrator/src/session.rs:240-246 | a committed session has every package behind all four stages |
| `SessionRules.JournalIff` | install-orchestrator/src/session.rs:126-176 | a journal is accepted exactly when its ids, digests, names, texts and build ids read as spelled out, each package stands under its own key, and the phase is Preparing as long as some package is not ready |
| `SessionRules.KeyIff` | install-orchestrator/src/session.rs:375-392 | the key of a private package is its root, two colons and its name; any other package is its own root; which of the two names is refused |
| `SessionRules.RefusedMarks` | install-orchestrator/src/session.rs:182-246 | for every mark and session, which check refuses it first, and as what; every other mark is accepted |
| `Session.InstallSession.Validate` | install-orchestrator/src/session.rs:126-176 | answers whether the fields form an acceptable journal |
| `Session.InstallSession.MarkArtifactVerified` | install-orchestrator/src/session.rs:182-201 | refines the verified step; a failed call changes nothing |
| `Session.InstallSession.MarkPrepared` | install-orchestrator/src/session.rs:203-216 | refines the prepared step; a failed call changes nothing |
| `Session.InstallSession.MarkAttested` | install-orchestrator/src/session.rs:218-230 | refines the attested step: only an activating gate advances the package |
| `Session.InstallSession.MarkReady` | install-orchestrator/src/session.rs:232-238 | refines the ready step and moves the phase when it was the last package |
| `Session.InstallSession.MarkCommitted` | install-orchestrator/src/session.rs:240-246 | commits only from ReadyToCommit |
| `ActivationSafety.MarkedSessionIsReady` | install-runtime/src/activation.rs:90-108 | marking every planned package with matching proofs ends in ReadyToCommit, and every journaled state on the way is valid |
| `ActivationSafety.RecoveryKeepsInv` | install-runtime/src/activation.rs:147-198 | recovery stopped after any step keeps the invariant, and completed leaves the committed pair and no journal or staged manifest |
| `ActivationSafety.ActivationKeepsInv` | install-runtime/src/activation.rs:55-134 | activation stopped after any step keeps the invariant; the committed pair changes exactly at the lock write |
| `ActivationSafety.RecoveryIsIdempotent` | install-runtime/src/activation.rs:147-198 | a recovered project is reported clean and left alone |
| `ActivationSafety.CrashAtomicity` | install-runtime/src/activation.rs:55-198 | after any run of activations and recoveries stopped anywhere, the lock is the last one swapped in, recovery succeeds and yields exactly the pair of that swap, and a second recovery does nothing |
| `ActivationSafety.CompletedActivation` | install-runtime/src/activation.rs:55-134 | an activation that completes, after any run, leaves exactly its target and no trace |
| `RecoveryOutcome.RecoveryNeverFailsIff` | install-runtime/src/activation.rs:147-198 | over a recovered project, recovery succeeds after a crash at every point of an activation, whether it would complete or stop at a failing proof, exactly when nothing is journaled or everything it would read fits and parses and the lock changes unless the manifest stays the same |
| `RecoveryOutcome.UnchangedLockStrandsRecovery` | install-runtime/src/activation.rs:187-188 | with an unchanged lock and a changed manifest, a crash after the first journal write makes every later recovery fail and change nothing |
| `RecoveryOutcome.UnchangedLockExample` | install-runtime/src/activation.rs:187-188 | one package, lock "L", manifests "m" and "n": an activation that would complete and strands the project when it crashes after its first write |
| `RecoveryAnswers.AnswersMean` | install-runtime/src/activation.rs:147-198 | rolled back exactly when a journal was there and the lock is not its target, completed exactly when recovery changed the manifest, cleaned exactly when lock and manifest already were the target; the build directory of the session is gone; every refusal names what could not be read and changes nothing |
| `RecoveryAnswers.AnswerTellsHowFar` | install-runtime/src/activation.rs:55-198 | after an install with a new lock and manifest was stopped anywhere, the answer of the next recovery tells which of its commit operations were done |
| `ActivationOutcome.FourMarksIff` | install-orchestrator/src/session.rs:182-238 | a pending package takes all four marks exactly when its proof carries its hash, an acceptable build id and an activating gate |
| `ActivationOutcome.ActivationCompletesIff` | install-runtime/src/activation.rs:79-108 | an activation completes exactly when it has one proof for each package and no other, and each proof passes |
| `ActivationOutcome.ProofsChecked` | install-runtime/src/activation.rs:79-90 | a proof too many, then a missing one, is refused before anything is written |
| `ActivationOutcome.StopsAtRefusal` | install-runtime/src/activation.rs:90-104 | marking journals the accepted marks one by one and stops at the first refused one, with its refusal |
| `ProjectStore.Store.RecoverLocked` | install-runtime/src/activation.rs:147-198 | performs the recovery plan, stopped where the process stops; its answers and refusals mean what they say of the files before and after |
| `ProjectStore.Store.MarkPackages` | install-runtime/src/activation.rs:91-104 | marks and journals package by package as planned |
| `ProjectStore.Store.Commit` | install-runtime/src/activation.rs:106-133 | the ordered commit: staged manifest, journal, lock, manifest, clean-up |
| `ProjectStore.Store.ActivateLocked` | install-runtime/src/activation.rs:55-134 | the whole activation performs exactly the recovery and activation plans up to where the process stops |
| `ProjectStore.Store.CleanUp` | install-runtime/src/activation.rs:194-196 | staged manifest, journal and build directory go in this order, as far as the process comes |
| `AtomicIo.TmpPathOnce` | atomic-io/src/lib.rs:352-366 | a temporary name belongs to one target and one moment |
| `AtomicIo.NeverHalfWritten` | atomic-io/src/lib.rs:136-168 | whichever of any number of interleaved writers die wherever, a target holds its first content or the whole of what one writer wrote |
| `AtomicIo.AtomicFiles.WriteAtomic` | atomic-io/src/lib.rs:136-168 | at every failure point the target is old or new, other files are untouched, and counters move only on success |
| `AtomicIo.AtomicFiles.ReadBounded` | atomic-io/src/lib.rs:220-240 | reads one byte past the limit at most and counts what it read even when it refuses |
| `ArtifactCache.StreamingEqualsOneShot` | install-executor/src/execution.rs:272-309 | bytes written are bytes hashed, and the verdict does not depend on how the body is cut up |
| `ArtifactCache.ContentRangeExact` | install-runtime/src/artifact.rs:232-269 | a rendered Content-Range (section 14.4 of RFC 9110) is accepted exactly when it continues at the offset and lies inside the pinned size |
| `ArtifactCache.AnswerRefusedIff` | install-runtime/src/artifact.rs:208-230 | with a pinned size s and k bytes kept, an answer of length n gets past the length check exactly when k + n is s; which statuses and lengths are refused, before anything is written |
| `StagingRules.VerdictIff` | install-executor/src/execution.rs:288-309 | the verdict is about the size first and the digest second, which a plan must give in lower case |
| `CacheSafety.DownloadIsSafe` | install-runtime/src/artifact.rs:93-138 | a refused answer writes nothing; after an accepted one, complete, broken off or with a refused chunk, the disk holds exactly what was hashed, and never by writing to the published bytes; a verdict is about the bytes on disk |
| `CacheSafety.HashedIsOnDisk` | install-runtime/src/artifact.rs:108-122 | at every step in between, resumed or started over, the disk holds a prefix of what was hashed |
| `CacheSafety.StageIsSafe` | install-runtime/src/artifact.rs:20-138 | the same for staging as a whole: resume, restart or fresh download |
| `CacheSafety.StageKeeps` | install-runtime/src/cache.rs:12-77 | staging with the cache, stopped anywhere, keeps the invariant on names, inodes and bytes |
| `CacheSafety.PromoteKeeps` | install-runtime/src/promotion.rs:37-146 | promotion, stopped anywhere, keeps it too and publishes only verified bytes |
| `CacheSafety.WriteOnce` | install-runtime/src/promotion.rs:37-82 | over all sequences of stage and promote calls stopped anywhere, what the final name leads to never changes once it is there |
| `CacheSafety.StageThenPromote` | install-runtime/src/promotion.rs:37-82 | a successful stage followed by a promotion publishes exactly the pinned bytes and removes the partial name |
| `StagingRules.PromotionAnswers` | install-runtime/src/promotion.rs:37-146 | published exactly when a matching artifact was staged and none was there, reused exactly when both match, and what each refusal says of the files; the files afterwards |
| `StagingRules.CachedStageBegins` | install-runtime/src/cache.rs:12-53 | a published artifact that does not pass stops staging; one that passes stands in for a missing partial download |
| `CacheProgress.PublishedIsKeptIff` | install-runtime/src/artifact.rs:58-106 | for every plan, staging again over published contents can change them exactly when the size is not pinned, the contents verify, and there is room for another byte or the plan may restart |
| `CacheProgress.RestartTruncatesFinal` | install-runtime/src/artifact.rs:98-106 | without a size, an ignored range request truncates the published bytes through the shared inode |
| `CacheProgress.AnswerIsAppended` | install-runtime/src/artifact.rs:98-121 | without a size, an answer that goes on after a complete artifact is appended to the shared inode |
| `CacheProgress.StagingCompletesIff` | install-runtime/src/cache.rs:12-77 | under every resume policy, some server, giving the true length of what it sends, completes staging exactly when the files are not stranded (a wrong published artifact, or a full-size partial with a wrong digest) and there is an artifact that satisfies the pin and, unless staging may start over, begins with what is kept |
| `CacheProgress.StrandedForever` | install-runtime/src/artifact.rs:24-56 | stranded files stay as they are under every resume policy and every sequence of stage and promote calls |
| `CacheProgress.WrongDigestStrands` | install-runtime/src/artifact.rs:126-138 | every stage that fails by its digest alone leaves the files stranded |
| `CacheProgress.WrongBodyStrands` | install-runtime/src/artifact.rs:108-138 | one accepted answer with a wrong body of the right size strands a fresh cache |
| `ArtifactStore.StreamingVerifier.Update` | install-executor/src/execution.rs:272-286 | adds a chunk or refuses it without counting it |
| `ArtifactStore.FeedFile` | install-runtime/src/artifact.rs:140-155 | rehashing a prefix in short reads is one feed of the file, with the same refusal |
| `ArtifactStore.Store.ReceiveBody` | install-runtime/src/artifact.rs:108-122 | every chunk is hashed first and written second, up to a crash inside a chunk |
| `ArtifactStore.Store.Download` | install-runtime/src/artifact.rs:93-124 | performs the planned operations of one answer |
| `ArtifactStore.Store.Respond` | install-runtime/src/artifact.rs:58-91 | performs the planned choice between continuing, restarting and refusing |
| `ArtifactStore.Store.StageArtifact` | install-runtime/src/artifact.rs:20-124 | performs the staging plan up to where the process stops |
| `ArtifactStore.Store.StageArtifactCached` | install-runtime/src/cache.rs:12-37 | performs the cached staging plan |
| `ArtifactStore.Store.PromoteArtifact` | install-runtime/src/promotion.rs:37-146 | performs the promotion plan |
| `ArtifactStore.VerifyCachedFinal` | install-runtime/src/cache.rs:39-53 | a cached final is accepted exactly when it has the pinned size and digest |
| `ArtifactStore.VerifyRegularFile` | install-runtime/src/promotion.rs:167-213 | a file is verified exactly when its bytes have the expected size and digest |
| `Calendar.CivilFollowsCalendar` | error-client/src/lib.rs:579-591 | every day number has a valid proleptic Gregorian date, day 0 is 1970-01-01 and each next number is the next day (leap rule of Appendix C of RFC 3339) |
| `Calendar.CivilIsBijection` | error-client/src/lib.rs:579-591 | the closed form and its inverse undo each other on all days and all valid dates |
| `GroupRegion.NewRegionIsValid` | group-memory/src/lib.rs:369-416 | a created region validates to the payload length it was created with |
| `RegionLayout.RegionIff` | group-memory/src/lib.rs:376-416 | a file is a region of so many bytes exactly when its first 64 bytes read as magic, version and length, byte by byte, and all of the payload is there; as what every other file is refused |
| `RegionLayout.LeaseRefusedIff` | group-memory/src/lib.rs:200-263 | where generation and marker stand, and which leases are refused for them, as what |
| `GroupLeases.CommittedReadsOnly` | group-memory/src/lib.rs:200-263 | over any interleaving of leases, writes, commits, drops and deaths: a granted read sees the last committed payload, the header validates to the original length, the generation counts the granted write and repair leases and those that died half-granted |
| `GroupLeases.GenerationsIncrease` | group-memory/src/lib.rs:233-263 | generations never decrease |
| `GroupLeases.LastGenerationIsFinal` | group-memory/src/lib.rs:244-246 | at the last generation, with no writer active, no sequence of events changes the region any more |
| `GroupLeases.AbandonedIsUnclean` | group-memory/src/lease.rs:67-76 | a writer that ends without a commit leaves the region unclean |
| `GroupLeases.UncleanUntilRepairCommits` | group-memory/src/lib.rs:200-263 | an unclean region refuses reads and ordinary writes until a repair commits |
| `GroupLeases.RepairReopens` | group-memory/src/lease.rs:57-76 | a committed repair opens the region with what it wrote |
| `GroupMemory.WriteHeader` | group-memory/src/lib.rs:369-374 | the header bytes replace the first 64 and the rest stays |
| `GroupMemory.Region.Anonymous` | group-memory/src/lib.rs:164-176 | a new region is zeros behind a header that validates |
| `GroupMemory.Region.ReadLease` | group-memory/src/lib.rs:200-212 | grants the generation or refuses an unclean region |
| `GroupMemory.Region.BeginWriteLease` | group-memory/src/lib.rs:233-263 | stores generation and marker when granted and nothing when refused |
| `GroupMemory.WithWrite` | group-memory/src/lib.rs:272-277 | a scoped mutation commits the new payload one generation later, or changes nothing |
| `GroupMemory.WriteLease.Commit` | group-memory/src/lease.rs:61-64 | clears the marker and nothing else |
| `GroupMemory.WriteLease.Release` | group-memory/src/lease.rs:67-76 | clears the marker only after a commit |
| `RegistryCrawl.HydrateCatalog` | install-runtime/src/registry.rs:122-151 | terminates on every graph, infinite ones included; success is exactly the reachable packages, each fetched once; too large only when more than the limit are reachable |
| `RegistryCrawl.ClosedContainsPath` | install-runtime/src/registry.rs:122-151 | a set closed under dependencies holds every path from its members |
| `SourceTree.FromFiles` | install-executor/src/source.rs:284-323 | the sort-and-accumulate loop computes the tree function |
| `SourceTree.OrderDoesNotMatter` | install-executor/src/source.rs:284-323 | reordering the input changes neither acceptance nor the identity |
| `SourceTree.RecordsDetermine` | install-executor/src/source.rs:300-320 | the bytes fed to the hasher determine the records they were made of |
| `SourceTree.IdentityIsCanonical` | install-executor/src/source.rs:284-323 | two accepted trees hash the same bytes exactly when they select the same set of path, size and lower-cased digest |
| `PathWalk.FilePathIsSafeIff` | install-executor/src/source.rs:252-266 | a source path is accepted exactly when walking it, with `..` going up and `.` staying, never leaves the root and ends at the path as written, and it holds no backslash and no colon |
| `PathWalk.RootIsSafeIff` | install-executor/src/source.rs:168-181 | the same for a selected root, slashes at its end aside |
| `TreeAcceptance.TreeAcceptedIff` | install-executor/src/source.rs:284-323 | a tree is accepted exactly when some file is selected and all selected ones have such paths, different even in letter case, hexadecimal digests and a total of 64 bits; they are the files whose components begin with those of a root |
| `TreeAcceptance.UnderIsPrefix` | install-executor/src/source.rs:158-165 | a root selects a path exactly when its components are the first of the path |
| `TreeAcceptance.PathLessIff` | install-executor/src/source.rs:295 | paths are ordered by their first different byte, prefixes first |
| `TreeAcceptance.RecordReads` | install-executor/src/source.rs:310-315 | in the hash input a file reads as the length of its path, the path, its size and its digest in lower case, numbers with the most significant byte first |
| `TreeAcceptance.SelectionIff` | install-executor/src/source.rs:131-152 | a selection needs a root, safe ones only, and drops the slashes at their ends |
| `TreeAcceptance.LimitsRefused` | install-executor/src/git_source.rs:370-404 | what a receipt is refused as: no file, too many, one too large, or too much in all |
| `TreeAcceptance.TreeStops` | install-executor/src/source.rs:299-309 | a tree is refused at its first bad file, in path order, as what is wrong with it |
| `SourceTree.ReceiptCountsEverything` | install-executor/src/git_source.rs:257-283 | a sealed receipt counts every file and byte it was given, within the limits |
| `SourceTree.ValidateSourceFiles` | install-executor/src/git_source.rs:370-404 | the limit scan finds the first problem in order |
| `TreeListing.ParseLsTree` | install-executor/src/git_source.rs:314-368 | the record loop computes the listing function |
| `TreeListing.AcceptedListingIsValid` | install-executor/src/git_source.rs:314-368 | an accepted listing is non-empty, within the limit, of regular blobs with 40 or 64 digits of object id and paths that stay below the root, are written as what they lead to and differ even in letter case |
| `TreeListing.ListingRoundTrip` | install-executor/src/git_source.rs:314-368 | printing any valid listing and parsing it gives it back, tabs and spaces in paths included |
| `TreeListing.ParsingNormalizes` | install-executor/src/git_source.rs:554-560 | parsing, printing and parsing again changes nothing |
| `TreeAcceptance.ListingIff` | install-executor/src/git_source.rs:314-368 | a listing is accepted as these entries exactly when its records that are not empty are theirs, in order, at least one, within the limit, with paths different even in letter case |
| `TreeAcceptance.RecordIff` | install-executor/src/git_source.rs:330-366 | a record is one exactly when it is UTF-8 and reads as mode, `blob`, an object id in any case with white space around it, a tab and a path that stays below the root |
| `TreeAcceptance.ListingStops` | install-executor/src/git_source.rs:330-366 | parsing stops at the first record that is refused: over the limit, by itself, or for a path that is there |
| `TreeAcceptance.RecordRefusedIff` | install-executor/src/git_source.rs:330-366 | what a record is refused as |
| `Utf8Text.Utf8Iff` | install-executor/src/git_source.rs:330-333 | a record is read as text exactly when it is the encoding of Unicode scalar values (section 3 of RFC 3629) |
| `WorkspaceArchive.NormalizedAgain` | install-runtime/src/workspace_archive.rs:590-612 | a normalized entry path normalizes to itself |
| `ArchiveRules.EntryPathIff` | install-runtime/src/workspace_archive.rs:590-612 | a stored name is accepted exactly when, with forward slashes and none at the end, it stays below the root as written, has at most 64 components and 1024 bytes, no colon, no NUL and no component Windows reserves |
| `ArchiveRules.ReservedIff` | install-runtime/src/workspace_archive.rs:622-649 | reserved are a dot or space at the end, devices with and without a number, and short names, whatever follows the first dot |
| `ArchiveRules.ModeIff` | install-runtime/src/workspace_archive.rs:389-414 | only regular files and directories pass by their mode, so no link or device does |
| `ExtractionRules.TotalIs` | install-runtime/src/workspace_archive.rs:345-354 | the running total is that of all listed sizes |
| `WorkspaceArchive.InspectArchive` | install-runtime/src/workspace_archive.rs:304-387 | the two loops compute the inspection function |
| `WorkspaceArchive.FindFileAbove` | install-runtime/src/workspace_archive.rs:369-384 | the growing prefix finds a file above an entry exactly when there is one |
| `ArchiveExtraction.AcceptedIsApart` | install-runtime/src/workspace_archive.rs:324-385 | on a file system that identifies names only when their keys agree, no two accepted members meet and none lies below a file |
| `ArchiveExtraction.AcceptedExtracts` | install-runtime/src/workspace_archive.rs:172-201 | any selection of an accepted archive, in any order, extracts into an empty root as exactly the tree it describes |
| `ArchiveExtraction.OrderFree` | install-runtime/src/workspace_archive.rs:172-201 | two orders of one selection give the same tree |
| `ArchiveExtraction.RefusedCollides` | install-runtime/src/workspace_archive.rs:324-385 | nothing is refused as a duplicate without two members that really collide where keys tell names apart |
| `ArchiveDestination.Destination.CreateDirectoryTree` | install-runtime/src/workspace_archive.rs:778-783 | makes every directory of a path unless a file is in the way |
| `ArchiveDestination.Destination.ExtractZip` | install-runtime/src/workspace_archive.rs:145-206 | refusals before the first write change nothing; into an empty root it succeeds exactly when every wanted member decodes to its listed size, reports a changed source otherwise, and leaves the tree of the wanted members |
| `ArchiveDestination.BytesWithinTotal` | install-runtime/src/workspace_archive.rs:189-198 | no selection writes more than the limit on listed sizes, so the limit on written bytes is never what stops it |
| `ExtractionRules.SelectedIs` | install-runtime/src/workspace_archive.rs:150-175 | without a request everything is extracted, in the order of the archive; otherwise what is requested, and a request for anything but a file of the archive is refused |
| `ExtractionRules.RequestIs` | install-runtime/src/workspace_archive.rs:150-153 | a request is the normalized names, and is refused when one of them cannot be normalized |
| `ExtractionRules.CountsAre` | install-runtime/src/workspace_archive.rs:189-204 | what is reported is the number of the files written and of all their bytes |
| `BinaryMetadata.BuildTagIsNoAlias` | binary-snapshots.py:88-109 | no valid build tag, legacy ones included, is the name of an alias |
| `BinaryMetadata.TagNamesOneBuild` | binary-snapshots.py:88-109 | a build tag determines version base, run and attempt |
| `PublicationRules.MetadataIff` | binary-snapshots.py:88-109 | metadata is accepted exactly when version, tag, commit, formats and sequence read as spelled out, the two older tags of development versions included |
| `PublicationRules.VersionIff` | binary-snapshots.py:30-40 | a version is three decimal numbers of 64 bits without leading zeroes |
| `PublicationRules.EarlierIff` | binary-snapshots.py:264-274 | builds are ordered by run, then by attempt |
| `PublicationRules.AliasIff` | binary-snapshots.py:254-262 | the names that move are that of the latest build and one for each version |
| `PublishRefs.LeasesFit` | binary-snapshots.py:264-274 | each alias is leased for a build that is not earlier, or names a later build |
| `PublishRefs.AliasesNeverRewind` | binary-snapshots.py:254-278 | between any two moments of any interleaving an alias never moves to an earlier build |
| `PublishRefs.TagsNeverMove` | binary-snapshots.py:254-278 | a build tag, like any name that is no alias, is never re-pointed |
| `PublishRefs.NewestBuildWins` | binary-snapshots.py:254-278 | after any interleaving, both aliases of a successful publication name a build at least as new, and its tag still names it |
| `PublishRefs.AliasesAreBacked` | binary-snapshots.py:254-278 | every alias names a commit its own build tag names, and a version alias names that version |
| `PublishRefs.UncontendedPublish` | binary-snapshots.py:254-278 | with no other publisher between, a new build moves exactly the aliases it is not outrun at, and its tag |
| `PublishRefs.ReportsWhatMoved` | binary-snapshots.py:254-278 | in any run, a push that succeeds reports, each once, exactly the aliases that name its commit then; it moves those and its tag only, and an alias it does not report names a later build |
| `PublicationRules.ComparisonRefusedIff` | binary-snapshots.py:254-273 | what stops a publication: its tag names another commit, else its version alias, else the latest alias, and as what |
| `RefPublisher.Repository.PushAtomic` | binary-snapshots.py:275-277 | all updates are checked before any is made |
| `RefPublisher.RefsPublisher.CompareRefs` | binary-snapshots.py:260-273 | the loop over the aliases computes the comparison |
| `RefPublisher.RefsPublisher.PublishBuild` | binary-snapshots.py:254-278 | read, compare and push in one go have the stated effect on every ref and report, without duplicates, exactly the aliases that are not outrun; an error leaves all refs alone |
| `ReleaseRefresh.PackageIsManaged` | binary-snapshots.py:429-431 | the package names of any build match the patterns of the clean-up |
| `ReleaseRefresh.PackagesAreDistinct` | binary-snapshots.py:303-304 | the packages of a build have different names |
| `ReleaseNames.LinksRead` | binary-snapshots.py:420-428 | each of the six files has the name, the title and the download link it is published under |
| `ReleaseNames.ManagedIff` | binary-snapshots.py:429-431 | the publisher takes for its own exactly the six files of some build of the version |
| `ReleaseRefresh.RefreshSafe` | binary-snapshots.py:395-435 | each call of a refresh is harmless where it is made: links move only to complete uploads, deletions never touch a linked or foreign file |
| `ReleaseRefresh.LinksAlwaysWork` | binary-snapshots.py:395-435 | over any sequence of refreshes stopped after any call, retried or newer, each published link leads to a file of the right size and digest |
| `ReleaseRefresh.ForeignFilesSurvive` | binary-snapshots.py:429-435 | a file that matches no pattern of the publisher survives every refresh unchanged |
| `ReleaseRefresh.RefreshCompletesIff` | binary-snapshots.py:409-419 | a refresh completes exactly when no file of one of its names is there with other contents |
| `ReleaseRefresh.CompletedRefresh` | binary-snapshots.py:395-435 | a completed refresh publishes its build, keeps exactly its files among the publisher's own, and a retry uploads and deletes nothing |
| `ReleasePublisher.RunCallsStop` | binary-snapshots.py:395-435 | a service that stops answering leaves one of the stopped refreshes |
| `ReleasePublisher.Service.UploadPackages` | binary-snapshots.py:409-419 | the upload loop makes the planned calls |
| `ReleasePublisher.Service.PublishRelease` | binary-snapshots.py:395-435 | the whole refresh makes the planned calls up to where the service stops, keeping links and foreign files |
| `BinaryParts.SplitValidatesIff` | binary-snapshots.py:144-184 | what a snapshot makes of an acceptable binary validates exactly when it has at most 128 parts |
| `BinaryParts.DefaultSplitValidates` | binary-snapshots.py:20 | with the default part size every acceptable binary validates |
| `BinaryParts.PartPathOnce` | binary-snapshots.py:149-151 | no two parts of a bundle share a path |
| `BinaryRules.ManifestIff` | binary-snapshots.py:163-184 | a manifest is accepted for a target exactly when it has the four binaries of one of the five targets, each within the limits, with parts stored under their numbers |
| `BinaryRules.NamesOfTarget` | binary-snapshots.py:70-72 | the four binaries of each target, with an extension on Windows only |
| `BinaryRules.FourDigitsRead` | binary-snapshots.py:149-151 | part numbers have at least four digits, and more only when they need them |
| `BinaryParts.RoundTrip` | binary-snapshots.py:283-295 | splitting and copying the parts in order rebuilds exactly the original bytes |
| `BinaryParts.CopiedIff` | binary-snapshots.py:283-295 | copying succeeds exactly when every part is there with its size and digest |
| `BinaryParts.ChangedPartIsRefused` | binary-snapshots.py:283-295 | a part of other length, or of other digest, is refused |
| `BinaryParts.AssembledRebuilds` | binary-snapshots.py:186-206 | what validates can be rebuilt exactly when the check before publication accepts it |
| `PartStore.CopyVerifiedPart` | binary-snapshots.py:283-295 | over short reads, succeeds exactly when the source holds the promised bytes and nothing more, and writes no more than the promised size |
| `PartStore.RebuildBinary` | binary-snapshots.py:307-318 | the copying loop computes the rebuild |
| `PartStore.AssembleBinary` | binary-snapshots.py:194-204 | the checking loop computes the check before publication |
| `PartStore.Output.WriteBinary` | binary-snapshots.py:144-156 | the reading loop writes every part of one binary and nothing else |
| `PartStore.Output.Snapshot` | binary-snapshots.py:130-161 | accepts exactly the complete bundles within the bounds, and stores all their parts |
| `PartStore.SnapshotValidatesIff` | binary-snapshots.py:163-184 | the manifest of a snapshot validates exactly when every binary has at most 128 parts |
| `PartStore.SnapshotRebuilds` | binary-snapshots.py:130-161 | what a snapshot stored rebuilds every binary of the bundle, none overwritten by another |
| `RedactedRanges.KindReplacesValues` | error-client/src/lib.rs:322-458 | in terms of the search, the pass of a name, scheme or header is its input with the mark in place of values: a range of the input is replaced exactly when it is the value, whole, of a word that stands in no replaced value |
| `ValueGrammar.KindFollowsGrammar` | error-client/src/lib.rs:322-470 | each pass replaces exactly what a grammar written out character by character describes: the whole name, its separator and blanks, then up to the closing quote or to the first of fifteen characters; a token; or the rest of a line |
| `ValueGrammar.TokenIsReplaced` | error-client/src/lib.rs:364-431 | after a name and `=`, a token over letters, digits and `._~+/=-` goes as a whole, up to a character that ends it or the end of the text |
| `ValueGrammar.KeysFollowGrammar` | error-client/src/lib.rs:258-295 | the same for private-key blocks, with the words of their first and last line written out |
| `ValueGrammar.UserinfoFollowsGrammar` | error-client/src/lib.rs:297-320 | the same for user information, and which separators the search comes upon |
| `BlockRedaction.KeysAreReplaced` | error-client/src/lib.rs:258-295 | the private-key pass is its input with the mark in place of blocks that announce a private key, each from its begin line to the dashes that close its end line, and none is left outside them |
| `UserinfoRedaction.UserinfoIsReplaced` | error-client/src/lib.rs:297-320 | the user-information pass is its input with the mark in place of exactly what stands between a separator its search comes upon and the last at sign of the authority |
| `RedactionPass.PassFills` | error-client/src/lib.rs:258-458 | a pass that edits the text as it searches gives what replacing the ranges found in the untouched input gives, when no replacement changes a decision behind it |
| `RedactedRanges.KindIsLocal` | error-client/src/lib.rs:322-458 | no replacement of a value changes a later decision of its pass |
| `RedactionRuns.KindProgresses` | error-client/src/lib.rs:322-458 | every turn of the loops leaves less to search, even when the text grows |
| `BlockRedaction.KeysProgress` | error-client/src/lib.rs:258-295 | the same for private keys |
| `UserinfoRedaction.UserinfoProgresses` | error-client/src/lib.rs:297-320 | the same for user information |
| `RedactionPass.FindsLowered` | error-client/src/lib.rs:367-370 | a search in any letter case is the search in the lowered text |
| `Redaction.CoveredKept` | error-client/src/lib.rs:364-431 | a replacement leaves every covered value covered and covers the one it stands in |
| `RedactionRuns.PassCovers` | error-client/src/lib.rs:364-431 | after its pass, every value a word introduces is empty or begins with the mark |
| `RedactionRuns.PassKeepsCovered` | error-client/src/lib.rs:246-256 | later passes bring nothing back |
| `BlockRedaction.NoPrivateKeyLeft` | error-client/src/lib.rs:258-295 | after its pass no line that begins a block announces a private key |
| `WholeRedaction.HeaderLeftIff` | error-client/src/lib.rs:246-256 | the redacted text shows a private-key header exactly when, once the keys are removed, a line that begins a block and a later private-key text stay untouched while every line feed between them is replaced |
| `WholeRedaction.KeptLinesShowNoHeader` | error-client/src/lib.rs:246-256 | so none is left when no later replacement takes a line feed |
| `RedactionGuards.ApartShowsNoHeader` | error-client/src/lib.rs:246-256 | none is left when, in the text without the keys, a line feed with no quoted value in front of it stands between each begin of a block and each private-key text behind it |
| `RedactionGuards.FeedsFirstShowNoHeader` | error-client/src/lib.rs:246-256 | none is left when no line feed of the reported text follows a quote |
| `RedactionExamples.HeaderComesBack` | error-client/src/lib.rs:246-256 | a text without a header whose redaction shows one |
| `RedactionTrace.JoinedForward` | error-client/src/lib.rs:258-458 | words that stay untouched with everything excluded between them replaced stand together in the end |
| `RedactionTrace.JoinedBackward` | error-client/src/lib.rs:258-458 | and whatever stands together in the end comes from such words |
| `UserinfoRedaction.UserinfoCleared` | error-client/src/lib.rs:297-320 | after its pass, user information shows at most behind a `://` that begins at the last character of another authority without any |
| `UserinfoRedaction.UserinfoLeftIff` | error-client/src/lib.rs:297-320 | the pass leaves no user information but the mark exactly when no separator its search skips has any |
| `UserinfoRedaction.SkippedIsShadowed` | error-client/src/lib.rs:297-320 | a skipped separator begins at the last character of another authority without user information |
| `UserinfoRedaction.UnshadowedLeavesNone` | error-client/src/lib.rs:297-320 | where no separator does, none is left |
| `UserinfoRedaction.ShadowedUserinfoStays` | error-client/src/lib.rs:308-311 | `a://b://u:p@h` and `a://@b://u:p@h` come back unchanged, with `u:p` behind a skipped separator |
| `WholeRedaction.KeptUserinfoIff` | error-client/src/lib.rs:246-256 | a character never replaced reads as user information in the redacted text exactly when a separator before and an at sign after it stay and everything between that ends an authority is replaced |
| `RedactionGuards.KeysRemovedIsSameIff` | error-client/src/lib.rs:258-295 | the private-key pass changes a text exactly when it shows a private-key header, so that for any other text these guards read the text itself |
| `UserinfoGuards.GuardedShowsNoUserinfo` | error-client/src/lib.rs:246-256 | the redacted text shows no user information when, in the text without the keys, no skipped separator has any, and a sensitive word inside an authority is followed by an at sign only if one of them is in that authority |
| `RedactionExamples.UserinfoComesBack` | error-client/src/lib.rs:246-256 | `x://u:p,pwd='/'@x.y`: its own pass leaves no user information, and the whole redaction shows `u:p` |
| `RedactTwice.RedactTwiceIff` | error-client/src/lib.rs:364-431 | redacting a named value again changes nothing exactly when the first search of the text comes upon quoted values only, empty ones apart |
| `RedactTwice.PwdGrows` | error-client/src/lib.rs:418-429 | `pwd=x` becomes `pwd=[REDACTED]` and then `pwd=[REDACTED]]` |
| `RedactedKinds.KindsAreValid` | error-client/src/lib.rs:52-87 | every configured name, header and scheme meets what the passes need |
| `RedactedKinds.KindsAreConfigured` | error-client/src/lib.rs:52-87 | which words are searched for |
| `WholeRedaction.NothingSensitiveLeft` | error-client/src/lib.rs:246-256 | in a redacted text every value of every sensitive name, header and scheme is empty or replaced |
| `Redactor.Message.RedactPrivateKeyBlocks` | error-client/src/lib.rs:258-295 | the loop is the pass, ends, and leaves no private-key header; what it replaced is what the grammar describes |
| `Redactor.Message.RedactUrlUserinfo` | error-client/src/lib.rs:297-320 | the loop is the pass, ends, and leaves no user information exactly when none stands behind a skipped separator |
| `Redactor.Message.RedactAuthScheme` | error-client/src/lib.rs:322-362 | the loop is the pass, ends, and covers every token of the scheme |
| `Redactor.Message.RedactNamedValues` | error-client/src/lib.rs:364-431 | the loop is the pass, ends, and covers every value of the name; what it replaced is what the grammar describes |
| `Redactor.Message.RedactSensitiveHeader` | error-client/src/lib.rs:433-458 | the loop is the pass, ends, and covers every line of the header |
| `Redactor.Message.Redact` | error-client/src/lib.rs:246-256 | all passes in order, each replacing what the grammar describes, with every sensitive value covered at the end |

## Left out

- File-system calls, sockets, HTTP clients, Git processes and the workflow itself: present only as their effect on state.
- YAML, JSON and ZIP formats, semantic versions, Unicode tables: parameters of the model or absent.
- Symbolic-link and path-component checks, address ranges, environment maps, argument lists and command lines.
- Lock-graph completeness, instance enumeration and the planning of an install: an activation starts from given packages and proofs, planned from the current state.
- Planning happens before the install lease is taken (`install-runtime/src/activation.rs:55-70`), so absence of lost updates is not claimed.
- Flushing to the device and power loss: the order of writes, links and renames is modelled, their durability is not.
- A crash while a group region's file is being created, and power-loss durability of mapped pages.
- `SourceFileHasher` (`install-executor/src/source.rs:192-250`), the graph-wide counters of promotion, and creation or rewriting of archives: straight-line uses of what is modelled.
- Session.InstallSession.Validate: says whether the journal is acceptable, not which of several problems the source reports first, because that depends on the order of its map.
- The payloads of errors.
- Header checks of platform executables and the identity a built binary reports about itself (`binary-snapshots.py:111-128`, `139-142`).
- `plan` and the rule that VERSION never decreases (`binary-snapshots.py:74-83`).
- The limits of the asset listing and the JSON types of service answers and metadata (`binary-snapshots.py:379-393`): values have their types by construction.
- Several drafts of one release: the real service does not list drafts by tag, the double does.
- Display spelling of implied directories: on a file system that folds case, `A/x` and `a/y` share one directory whose spelling depends on which came first; trees are compared by what names lead to.
- BlockRedaction.NoPrivateKeyLeft: speaks of the text after its own pass; `HeaderLeftIff` speaks of the whole redaction.
- Texts are sequences of characters rather than UTF-8 bytes; every position the loops compare is at an ASCII character.
