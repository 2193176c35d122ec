# malmathic: a verified model

malmathic reads a Windows volume offline, gathers what the artifacts on it say about executables, scores them, and
tries to recover the bytes of those that matter, deleted or not. This project models the parts of it whose correctness
does not show in any one body, and proves what they promise.

| file | models |
|---|---|
| `RecoveryChain.dfy`, `Hashes.dfy` | the nine-step recovery chain: snapshot, restore, hold and replay over one candidate and one sample file |
| `Clusters.dfy` | the budgeted count of a runlist against the volume bitmap, and the claims a carve makes from it |
| `FreeSpace.dfy`, `PeImage.dfy`, `Carving.dfy`, `DeepScan.dfy` | the deep carve: free runs, overlapping chunks, PE length, matching images to targets, limits |
| `GhostImages.dfy` | record images from the log, sorted into names that mean one file and names that do not |
| `IndexSlack.dfy`, `PathKeys.dfy` | deleted names in directory slack joined to the paths a run could not find; path keys and how they split and join |
| `Observations.dfy`, `ComClasses.dfy`, `Deferral.dfy`, `Junctions.dfy` | the passes that rewrite the list of observations in place, and the order they run in |
| `Selection.dfy` | the band of candidates whose signatures are checked, and the samples taken within a budget |
| `VersionResource.dfy` | the version resource the build script prints, against a decoder written from the file formats |
| `WordWrap.dfy` | the greedy word wrap of `explain` |
| `DirectoryPaths.dfy` | the memoised parent-chain resolver of the journal dump |
| `Prelude.dfy`, `Sorting.dfy`, `LittleEndian.dfy` | optional values, machine integers, white space; stable sorting; numbers in bytes |

## How the model is built

The code that changes things step by step is imperative here too. A struct whose methods update its fields is a class
(`Candidate`, `ClusterMap`, `FreeRuns`, `Scan`, `GhostIndex`, `RecoveredNames`, `Resolver`), and so is the state of a
function that rewrites a list or counts as it goes (`ComPasses`, `DeferPasses`, `JunctionPass`, `SampleRun`). Each
method is tied to a function of its inputs and its old state, and the theorems are about those functions. The rest is
expressions and recursion, as in the source. Where a method and its specification share a definition, a lemma says what
the definition means without it, from the fields of the observations, junctions, bytes and finds themselves.

What comes from outside is a function-valued parameter, so every theorem holds for all of its behaviours:

- the volume: what a record holds, what a path resolves to, which reads a device serves, what a directory's slack holds;
- digests, the names a PE file carries, lower-casing beyond ASCII, the zone of a path, the score of a candidate;
- what each recovery step finds and whether each write to the sample directory succeeds. Both are indexed by the number
  of the attempt, so the world may change underneath a run. `RecoveryChain.Steady` is the assumption that it does not,
  and the theorems that need it say so;
- the clock, which may stop a scan at any of the points where the source looks at it (`DeepScan.Exhausted`).

Conventions worth knowing when comparing with the source:

- Byte offsets and lengths are unbounded and every counter that can wrap is a subset type with the source's own
  saturating arithmetic written out. `usize` is taken to have 64 bits.
- Messages are tags. Only the branch that chose one is kept.
- A recovery attempt changes neither a candidate's score nor whether a rule names it, so both are functions of the
  candidate alone.
- Scores and log-odds are reals, which excludes NaN. `sort_by` is a stable insertion sort.
- Strings are sequences of Unicode scalar values. Where the source counts bytes, `Prelude.Utf8Length` does (the least
  length of a self-name stem), or the two counts agree: junction prefixes are compared only between prefixes of one
  path, and a class id has more than its two braces either way.
- A normalised path key is one or more segments, each after a backslash (`PathKeys.IsKey`). `IndexSlack` requires it of
  its paths, as the private constructor of the source's path type does; `PathKeys.NormalizeSegments` shows where it
  comes from.
- `read_clusters` is a read of the requested bytes that fails when they run past the volume.
- The chunked scan meets every cluster only when a cluster has room for two bytes and a chunk is a whole number of
  clusters; the coverage theorems are conditional on that (`DeepScan.Aligned`), everything else is not.

## Where the code and its intent part

These are stated as theorems with the exact condition, or as concrete counterexamples:

- A write that fails leaves its digest on the candidate although the run reports no bytes
  (`RecoveryChain.LostWriteLeavesItsDigest`). A run without bytes leaves a fresh candidate's bookkeeping untouched
  exactly when no write was lost before the attempt it held back, nor when that attempt was made again
  (`RecoveryChain.NoBytesNoDigest`); when a write is lost is in `RecoveryChain.AttemptsAre`.
- A run without bytes can leave another step's bytes in the sample file (`RecoveryChain.AnotherStepsBytesAreLeft`),
  exactly in the cases `RecoveryChain.BytesLeftBehind` lists.
- Index slack demotes a carve only after its digest was adopted, and only when it was written out
  (`RecoveryChain.ADemotedCarveIsAdopted`). No other step adopts the digest of bytes it calls partial, and this one does
  exactly when nothing else speaks against the carve (`RecoveryChain.PartialIsAdoptedExactly`).
- A recorded hash confirms when one of its digests agrees, although another may not
  (`RecoveryChain.ConfirmedDespiteADisagreement`, and `RecoveryChain.VerdictFollowsTheChecks` for every hash).
- Overlapping runs can exhaust the count's budget and hide a reallocated cluster from the check before a ghost is read
  (`Clusters.OverlapHidesAReusedCluster`). For every runlist the verdict is exact about the clusters before the cut
  (`Clusters.GhostReadIsSound`), so it is wrong exactly when a taken cluster lies only past it (`Clusters.WrongReads`);
  the counts are the unbudgeted ones exactly when the runs name no more clusters than the bitmap has
  (`Clusters.BoundedByNaive`).
- "Every cluster is still allocated" is said of files that are nothing but holes too (`Clusters.HolesPassForAllocated`,
  and `Clusters.OwnershipIsSound` for every runlist).
- A printed version tree decodes exactly when no key holds a NUL and every text value is whole 16-bit units
  (`VersionResource.PrintedTreesDecode`, with `VersionResource.AKeyWithAZeroIsLost`).
- Running out of depth caches "no path" for every record on the way, and one of them can have a path from closer by
  (`DirectoryPaths.ANestedDirectoryIsPoisoned`). From then on whatever lies under such a record is refused and cached in
  turn, however shallow (`DirectoryPaths.FalsehoodSpreads`, `DirectoryPaths.AShallowDirectoryIsPoisonedToo`). Whatever
  false entries a cache holds, a path that exists is refused, and every record the resolution adds becomes a false entry,
  exactly when its chain meets the limit or a record cached without a path; no other resolution adds one
  (`DirectoryPaths.LostExactly`).
- Relabelling before promoting would change the outcome exactly when `ComClasses.OrderIsFree` fails
  (`ComClasses.OrderMattersExactly`).
- A second junction pass changes an observation exactly when `Junctions.Settles` fails for its key
  (`Junctions.ASecondPassIsIdle`). It fails for a ring of three junctions on a volume that resolves the three paths
  round it (`Junctions.ARingNeverSettles`); a path that leads to nothing the volume resolves stays as it was
  (`Junctions.PathsStayOrLead`).
- When the directory for unranked samples cannot be made, the warning counts every candidate the score did not reach.
  The attempts it prevented are those the budget would have allowed of the candidates a rule names, and the two agree
  exactly when a rule names every such candidate and the budget reaches to the last (`Selection.TheWarningOvercounts`);
  they differ for sixty-five candidates that rules name (`Selection.TheWarningCountsADeclinedOne`).
- Overlapping runs also make a carve say that clusters lie past the bitmap when none does
  (`Clusters.InsideIsCalledPast`); `Clusters.CarveBasisIsSound` has the exact condition.

## Model

| member | source | states |
|---|---|---|
| RecoveryChain.Acquire | crates/malmathic/src/acquire.rs:274-372 | the loop with its snapshot, restore, hold and replay ends with the result, the bookkeeping and the sample file that the declarative `Decide` says, in every world; whenever it returns bytes the sample file holds exactly those bytes, their digest is the one recorded, and a confirmation names a recorded digest that agrees; with samples withheld the file is never touched; at most ten steps run |
| RecoveryChain.Replay | crates/malmathic/src/acquire.rs:330-363 | the held step is run again from the bookkeeping it was first run with: what it gives, or the reason it did not, and the bookkeeping and sample file after it |
| RecoveryChain.SteadyRunIsTheChoice | crates/malmathic/src/acquire.rs:274-372 | on a volume that does not change and accepts every write, the whole loop is the one-line choice: the first trustworthy step if a hash is recorded, else the first step with bytes, else the recorded hash or the first failure; and the hash bookkeeping and the sample file end as if only the chosen step had run from the start |
| RecoveryChain.IdentityAfterASteadyRun | crates/malmathic/src/acquire.rs:274-372 | the candidate's identity after a steady run: the one before, with the chosen bytes' digest taken over exactly when they are the file itself, or a recorded hash confirms them, or (not for a shadow copy or an orphaned record) no recorded hash speaks of them and they are sound |
| RecoveryChain.AdoptionIs | crates/malmathic/src/acquire.rs:1091-1100 | the same of any one attempt in any world: the volume's own file always, a shadow copy or an orphaned record only when confirmed, any other step when confirmed or undisputed and sound |
| RecoveryChain.AttemptSays | crates/malmathic/src/acquire.rs:222-248 | what each step calls the bytes it gives, and where it says they came from, in terms of the find and the recorded hash |
| RecoveryChain.RefusalsAre | crates/malmathic/src/acquire.rs:536-580 | a step gives nothing exactly when it finds nothing, and refuses exactly when it says so or the quarantine's sizes disagree and no recorded hash settles it |
| RecoveryChain.TrustedExactly | crates/malmathic/src/acquire.rs:307-317 | trusted is exactly the file itself, or bytes the recorded hash confirms and whose length index slack does not contradict |
| RecoveryChain.RecordedHashIsTheFirst | crates/mm-core/src/candidate.rs:103-105 | the recorded hash is the first digest any artifact gave, and there is none only if none gave one |
| RecoveryChain.ChainIs | crates/malmathic/src/acquire.rs:209-219 | the nine steps in their order |
| RecoveryChain.FallbackIs | crates/malmathic/src/acquire.rs:1136-1155 | a run without bytes ends as a bare digest exactly when the candidate has one and an artifact can be named for it, the first that gave one or else the first that recovered one; else it fails for the first reason |
| RecoveryChain.FirstReasonIs | crates/malmathic/src/acquire.rs:305-309 | the reason is that of the first attempt that refused or could not write |
| RecoveryChain.VerdictFollowsTheChecks | crates/malmathic/src/acquire.rs:842-865 | the comparison with the first recorded hash is undecided exactly when no algorithm is shared, confirmed exactly when some check of it agrees, even if another does not, and partial otherwise |
| RecoveryChain.ConfirmedDespiteADisagreement | crates/malmathic/src/acquire.rs:842-849 | counterexample to "confirmed means every shared digest agrees": the SHA-1 agrees, the MD5 does not |
| RecoveryChain.TrustIsEarned | crates/malmathic/src/acquire.rs:842-859 | a step past the volume itself is trusted only if its digest agrees with the first recorded one |
| RecoveryChain.NothingToConfirmAgainst | crates/malmathic/src/acquire.rs:289-321 | with no recorded hash, nothing past the volume is ever trusted, so the first step that gives bytes is the choice |
| RecoveryChain.NoBytesNoDigest | crates/malmathic/src/acquire.rs:274-372 | a run that reports no bytes leaves a fresh candidate's bookkeeping untouched if and only if no write was lost before the attempt it held back, nor when that attempt was made again |
| RecoveryChain.ResidueIsOfLostWrites | crates/malmathic/src/acquire.rs:305-328 | after any number of probes the bookkeeping is the fresh one if and only if no write was lost |
| RecoveryChain.AttemptsAre | crates/malmathic/src/acquire.rs:880-903 | when an attempt loses its write, gives bytes, or touches the sample file, each as a condition on what it finds, its verdict and the write |
| RecoveryChain.LostWriteLeavesItsDigest | crates/malmathic/src/acquire.rs:880-903 | counterexample: a run on a volume that holds the file, in a directory that takes no write, ends without bytes and with their digest on the books |
| RecoveryChain.BytesLeftBehind | crates/malmathic/src/acquire.rs:318-371 | a run that reports no bytes leaves some step's bytes in the sample file if and only if samples are written out, some attempt gave bytes, no later one lost its write and neither did the replay; they are then those of the last attempt that gave any |
| RecoveryChain.AnotherStepsBytesAreLeft | crates/malmathic/src/acquire.rs:318-371 | counterexample: two steps give bytes nobody confirms, the replay gives nothing, and the second one's bytes stay under a run that reports none |
| RecoveryChain.PartialIsAdoptedExactly | crates/malmathic/src/acquire.rs:1597-1620 | for every world and step, the digest of bytes given as partial is adopted if and only if the step is index slack, the carve was written out, its length contradicts the directory entry, and its own verdict was not partial |
| RecoveryChain.ADemotedCarveIsAdopted | crates/malmathic/src/acquire.rs:1597-1620 | counterexample: a whole run that ends with bytes called partial and their digest as the candidate's identity |
| RecoveryChain.AttemptDelivers | crates/malmathic/src/acquire.rs:880-903 | any step that gives bytes leaves them in the sample file and their digest on the books; one that computed a digest gives bytes or lost its write |
| RecoveryChain.NothingLost | crates/malmathic/src/acquire.rs:318-326 | when every write succeeds, on a volume that may change, no probe that was held or refused leaves a trace in the bookkeeping |
| RecoveryChain.Candidate.Restore | crates/malmathic/src/acquire.rs:266-270 | the three hash fields become the snapshot's, and nothing else changes |
| RecoveryChain.Candidate.RunStep | crates/malmathic/src/acquire.rs:222-248 | one step's result, bookkeeping and sample file are those of the pure attempt, which the bookkeeping plays no part in |
| RecoveryChain.Candidate.Save | crates/malmathic/src/acquire.rs:880-903 | withheld, written or failed, and what the sample file holds in each case |
| RecoveryChain.Candidate.RecordAcquiredHash | crates/mm-core/src/candidate.rs:107-126 | the two loops add every check of every recorded digest once, keep the computed digest, and adopt it only if told to |
| RecoveryChain.RecordingTwice | crates/mm-core/src/candidate.rs:107-126 | recording the same digest again changes nothing, which is what makes a replay harmless |
| RecoveryChain.AddedChecksAreHeld | crates/mm-core/src/candidate.rs:114-120 | the checks after recording are those before and those made, no more and no fewer |
| RecoveryChain.ChecksAre | crates/mm-core/src/candidate.rs:107-113 | the checks made are those of every artifact that gave a digest |
| RecoveryChain.AddedOnce | crates/mm-core/src/candidate.rs:114-120 | no check is held twice, and those held stay in front |
| Hashes.ChecksDecide | crates/mm-core/src/hash.rs:104-121 | checks are made exactly when an algorithm is shared, one agrees exactly when the hashes do, and each says truthfully whether its digests are equal |
| Hashes.ChecksAreOfOneAlgorithm | crates/mm-core/src/hash.rs:104-121 | each check compares the two digests of the algorithm it names, and there is one for each algorithm both sides used |
| Hashes.AgreementIs | crates/mm-core/src/hash.rs:45-56 | agreeing is mutual and needs a shared algorithm; only the empty hash does not agree with itself |
| Hashes.ComputedSupersedes | crates/mm-core/src/hash.rs:98-102 | a hash that took over computed digests agrees with all of them and loses nothing that was only recorded; doing it again changes nothing |
| Clusters.ClusterMap.Bits | crates/malmathic/src/acquire.rs:115-124 | the memo gives what reading the bitmap would give, refused if its first cluster reads as free |
| Clusters.CredibleIs | crates/malmathic/src/acquire.rs:157-159 | a bitmap is credible exactly when its first byte is odd, which marks the boot sector's cluster taken |
| Clusters.BitIs | crates/malmathic/src/acquire.rs:175-178 | cluster n is bit n mod 8 of byte n div 8, and there is none past the last byte |
| Clusters.BitsOfAByte | crates/malmathic/src/acquire.rs:175-178 | the bits of a byte, the least significant first |
| Clusters.ClusterMap.Allocate | crates/malmathic/src/acquire.rs:126-154 | the four counters are the saturated exact tally, there is an answer exactly when the bitmap is credible, and all runs together look up at most as many clusters as the bitmap has |
| Clusters.CountRuns | crates/malmathic/src/acquire.rs:131-153 | the outer loop, with its shrinking budget and saturating counters, computes the exact tally saturated |
| Clusters.LookUp | crates/malmathic/src/acquire.rs:143-149 | the inner loop adds the free, taken and undescribed clusters of its range |
| Clusters.Conservation | crates/malmathic/src/acquire.rs:126-173 | every declared cluster lands in exactly one counter: they sum to the declared total whenever that fits 64 bits |
| Clusters.TalliedIsWhole | crates/malmathic/src/acquire.rs:136-152 | the same for any budget and without saturation |
| Clusters.BoundedByNaive | crates/malmathic/examples/decay.rs:143-153 | free and reused never exceed the unbudgeted count, and equal it if and only if the runs name no more clusters than the bitmap has |
| Clusters.ExactWithoutOverlap | crates/malmathic/examples/decay.rs:143-153 | runs that do not overlap always meet that condition, so their count is the unbudgeted one |
| Clusters.DisjointCells | crates/malmathic/src/acquire.rs:136-142 | the clusters disjoint runs name inside the bitmap are as many as their clipped lengths sum to |
| Clusters.CleanTally | crates/malmathic/src/acquire.rs:136-152 | nothing unknown and nothing contrary, if and only if every named cluster is inside the bitmap and reads that way and the budget sufficed |
| Clusters.SeenTally | crates/malmathic/src/acquire.rs:136-152 | a counter above zero has seen such a cluster, and an uncut count sees every one |
| Clusters.CutTally | crates/malmathic/src/acquire.rs:136-152 | for every runlist and budget, a counter is above zero if and only if some cluster before the cut, where the loop stops looking, reads that way |
| Clusters.UnknownTally | crates/malmathic/src/acquire.rs:141-151 | clusters count as unknown if and only if some named one lies past the bitmap or the runs name more than it has |
| Clusters.CarveBasisIsSound | crates/malmathic/src/acquire.rs:769-840 | a carve says all its clusters are free exactly when every one is inside the bitmap and clear and the budget sufficed; "overwritten" exactly when some cluster before the cut is taken, which for runs within the budget is any cluster; and "past the bitmap" exactly when none before the cut is taken and some lie past it or the budget was exceeded |
| Clusters.CarveBasisOfAnyBitmap | crates/malmathic/src/acquire.rs:769-840 | for any runlist and whatever was read of the bitmap: resident exactly without runs, a claim about clusters exactly from a credible bitmap, no bitmap owned up to exactly otherwise, and fragments exactly when a cluster before the cut is taken or the file is nothing but holes |
| Clusters.VerdictsWithoutABitmap | crates/malmathic/src/acquire.rs:480-492 | without a credible bitmap ownership is owned up to as unverifiable and a ghost is read as of unknown standing, and only then; a ghost counts as taken exactly when a cluster before the cut is |
| Clusters.InsideIsCalledPast | crates/malmathic/src/acquire.rs:791-800 | counterexample: two runs over the same six clear clusters are said to reach past the bitmap, and vouched for only in part as a ghost |
| Clusters.OwnershipIsSound | crates/malmathic/src/acquire.rs:480-492 | "every cluster still allocated" is said exactly when every cluster on the disk is inside the bitmap and set, and "no clusters" exactly when none is declared |
| Clusters.HolesPassForAllocated | crates/malmathic/src/acquire.rs:480-492 | counterexample: a file of three clusters that were never on the disk is said to have every cluster allocated |
| Clusters.GhostReadIsSound | crates/malmathic/src/acquire.rs:1411-1463 | for every runlist, a ghost is read if and only if some cluster before the cut is clear and none before it is taken; for runs within the budget, such as disjoint ones, that is said of every cluster they name; each of the two readable verdicts has its exact condition |
| Clusters.WrongReads | crates/malmathic/src/acquire.rs:1411-1463 | the read is made although a named cluster is taken if and only if taken ones lie only past the cut and a clear one before it; within the budget there are none past it |
| Clusters.OverlapHidesAReusedCluster | crates/malmathic/src/acquire.rs:1411-1463 | counterexample: two overlapping runs are read although one names a taken cluster |
| FreeSpace.FreeRuns.Next | crates/malmathic/src/deep.rs:330-342 | the iterator yields the next run of the specified list and advances to its end, or there is none left |
| FreeSpace.RunsAreTheMaximalOnes | crates/malmathic/src/deep.rs:314-343 | that list holds exactly the maximal runs of clear bits below the covered end, each ending before the next begins |
| FreeSpace.CoveredIs | crates/malmathic/src/deep.rs:320-325 | the clusters looked at are those the volume has and the bitmap describes |
| FreeSpace.RunsHoldTheFreeClusters | crates/malmathic/src/deep.rs:101-103 | their lengths sum to the number of free clusters |
| PeImage.PeImageLength | crates/malmathic/src/deep.rs:242-294 | the parser is total and gives exactly the length the declared layout has |
| PeImage.MeasureSections | crates/malmathic/src/deep.rs:277-293 | the section loop refuses a table it cannot read whole and otherwise takes the furthest end within the sample limit |
| PeImage.LengthIsTheFurthestEnd | crates/malmathic/src/deep.rs:242-294 | a length is given if and only if the headers read, and it is the furthest of the headers' end, a real certificate table's and every non-empty section's, positive and within the sample limit |
| PeImage.LayoutIsTheFormats | crates/malmathic/src/deep.rs:242-293 | the parser reads exactly what the format's structures, written out field by field with their widths, declare: both forms of the optional header, its directories and the section table |
| PeImage.SectionsAreDeclared | crates/malmathic/src/deep.rs:278-287 | the section table is read exactly as section headers one after the other declare it |
| PeImage.PrefixStable | crates/malmathic/src/deep.rs:242-294 | a length read from a window is the length read from any longer view of the same bytes |
| PeImage.NumbersAreRead | crates/malmathic/src/deep.rs:300-306 | a number is read exactly when all its bytes are there, the least significant first |
| Carving.Compare | crates/malmathic/src/deep.rs:215-239 | the loop over targets adds the hits an image gives, skipping targets already hit and any past the cap |
| Carving.HitsAreFaithful | crates/malmathic/src/deep.rs:215-239 | after any images, each target has at most one hit, it is from the first image that answers it, and there is none if no image does |
| Carving.AnswerIs | crates/malmathic/src/deep.rs:219-231 | an image answers a target exactly by its recorded digest, or, only if none is recorded, by the first name it carries of the target's stem |
| Carving.HitsAreEarned | crates/malmathic/src/deep.rs:214-239 | every hit is on a target searched for, from an image hashed, and matches it in the way it says |
| Carving.MatchesAreHit | crates/malmathic/src/deep.rs:214-239 | every target some image matches is hit, by an image that comes no later |
| Carving.AddHitsExtends | crates/malmathic/src/deep.rs:215-239 | comparing an image only appends hits, one for each target not yet hit that it answers |
| Carving.NothingLeftToFind | crates/malmathic/src/deep.rs:147-149 | once there are as many hits as targets every target is hit and no further image can change the hits, so stopping early loses nothing |
| DeepScan.ScanVolume | crates/malmathic/src/deep.rs:79-159 | when there is something to scan with and for, on every run the limits hold and the hits are those of the hashed images; every cluster tried is free and tried once in address order; a scan that was not stopped and still misses a target tried every free cluster, and its two counters agree |
| DeepScan.SearchRuns | crates/malmathic/src/deep.rs:105-155 | the loop over free runs keeps all of that from run to run |
| DeepScan.SearchRun | crates/malmathic/src/deep.rs:106-154 | the loop over overlapping chunks tries every cluster of its run, or the scan was stopped or has every hit |
| DeepScan.SearchChunk | crates/malmathic/src/deep.rs:134-152 | the loop over cluster starts tries each of its chunk once, in order |
| DeepScan.Examine | crates/malmathic/src/deep.rs:181-240 | an image is hashed and compared exactly when it measures, fits its free run, is within the limits and can be read; all counters move accordingly |
| DeepScan.Exhausted | crates/malmathic/src/deep.rs:161-179 | no reason to stop means every limit has room left, and each reason given is true |
| DeepScan.CountFree | crates/malmathic/src/deep.rs:101-103 | the first pass counts the free clusters |
| DeepScan.FindableIsMeasured | crates/malmathic/src/deep.rs:181-194 | an image that its first bytes measure is measured the same from whatever chunk its cluster falls in |
| DeepScan.FindableIsTaken | crates/malmathic/src/deep.rs:195-211 | within the limits such an image is taken whole, from the window or by a second read |
| DeepScan.WhatIsThereIsFound | crates/malmathic/src/deep.rs:79-159 | completeness: in a scan that met no limit, a target is hit whenever some free cluster holds an image that answers it |
| DeepScan.HitsAreGenuine | crates/malmathic/src/deep.rs:181-240 | soundness: a hit's bytes lie on the volume at the free cluster it names, in a free run that holds them whole, as long as their own headers say, and match the target in the way it says |
| DeepScan.TakenIsGenuine | crates/malmathic/src/deep.rs:181-211 | whatever is taken from a window or by a second read is that |
| DeepScan.QualifiedAre | crates/malmathic/src/deep.rs:353-387 | the targets are the candidates neither recovered nor still on the volume that have a recorded digest or a name of at least three bytes |
| DeepScan.ATinyImageIsFindable | crates/malmathic/src/deep.rs:242-294 | an image completeness speaks of exists: 224 bytes of PE32 in the free cluster of a two-cluster volume measure, fit and are taken |
| DeepScan.LowestAddressWins | crates/malmathic/src/deep.rs:215-239 | a hit carries the bytes of the lowest-addressed hashed image that answers its target |
| DeepScan.Targets | crates/malmathic/src/deep.rs:375-387 | the first qualifying candidates of the order, up to the cap |
| DeepScan.TargetsAreDistinct | crates/malmathic/src/deep.rs:375-387 | an order without repeats gives targets with distinct indices, which is what the scan relies on |
| GhostImages.GhostIndex.Absorb | crates/malmathic/src/acquire.rs:1235-1259 | both loops: images are counted and grouped by lowercased name up to the cap, and groups are filed as unique or by their number of different files |
| GhostImages.VerdictsAreExact | crates/malmathic/src/acquire.rs:1235-1259 | within the cap a name is unique if and only if its byte-carrying images describe one file, ambiguous with their exact number if and only if they describe more, never both |
| GhostImages.OnlyImagesWithBytesCount | crates/malmathic/src/acquire.rs:1237-1238 | an image with neither resident bytes nor runs changes nothing, and any other counts |
| GhostImages.SameFileIs | crates/malmathic/src/acquire.rs:1299-1304 | two images are of the same file exactly when they differ in name, times and place at most |
| GhostImages.OrderDoesNotMatter | crates/malmathic/src/acquire.rs:1235-1259 | the verdicts are the same for any order of the images |
| GhostImages.GroupedRepresents | crates/malmathic/src/acquire.rs:1242-1247 | each name kept has one image for every different file and no file twice |
| GhostImages.GroupedNames | crates/malmathic/src/acquire.rs:1241-1243 | names are left out only once the cap is reached |
| IndexSlack.Harvest | crates/malmathic/src/index_slack.rs:94-175 | the whole sweep files exactly what the wanted keys in swept directories recover, whatever their order or repetition; its counters agree with the map; resolved and declined directories together never exceed the wanted ones |
| IndexSlack.RecoveredExactly | crates/malmathic/src/index_slack.rs:94-175 | a path is recovered if and only if it was wanted and located, its directory was swept, and some long-name entry there claims its leaf, all of them for one record; it is told the fields of the first such entry and the fate of its record |
| IndexSlack.EveryNameHasOneRecord | crates/malmathic/src/index_slack.rs:136-146 | a key is recovered only if it was wanted, and under the one record that every long-name entry for that leaf in its directory names |
| IndexSlack.SweptAre | crates/malmathic/src/index_slack.rs:113-119 | every wanted directory that resolves is swept, unless the cap is reached |
| IndexSlack.GroupWanted | crates/malmathic/src/index_slack.rs:100-109 | the wanted paths are grouped by directory, duplicates and unlocated ones left out |
| IndexSlack.RecoveredNames.SweepDirectory | crates/malmathic/src/index_slack.rs:113-172 | one directory: declined past the cap, passed over if it does not resolve, else everything it can recover is filed |
| IndexSlack.GroupClaims | crates/malmathic/src/index_slack.rs:124-134 | entries are grouped by wanted leaf, short names beside long ones passed over |
| IndexSlack.RecoveredNames.FileLeaf | crates/malmathic/src/index_slack.rs:136-172 | one leaf: ambiguous if its entries name different records, else filed under its key with the first entry's fields and fate |
| IndexSlack.OneMoreOfFate | crates/malmathic/src/index_slack.rs:142-149 | a new name raises the counter of its fate by one and leaves the others |
| IndexSlack.ChildrenApart | crates/malmathic/src/index_slack.rs:150-154 | different leaves of a directory make different keys, so no entry of the map is overwritten |
| PathKeys.JoinOfParts | crates/mm-core/src/path.rs:109-120 | a key is the join of its parent and its file name |
| PathKeys.PartsOfJoin | crates/mm-core/src/path.rs:109-120 | the join of a directory and a leaf splits into exactly those two |
| PathKeys.NormalizeSegments | crates/mm-core/src/path.rs:302-324 | what comes out of normalising a path's segments is a key, or nothing |
| PathKeys.SteppedIsTheStack | crates/mm-core/src/path.rs:302-324 | the key is the stack of names a path leads through, spelled: double dots take the last one back, empty and dot segments are none |
| PathKeys.TrimmedIs | crates/mm-core/src/path.rs:333-341 | trimming takes all spaces and dots from a name's end, unless it is made of nothing else |
| ComClasses.ComPasses.PromoteComHijacks | crates/malmathic/src/pipeline.rs:1787-1824 | rewrites exactly the live user registrations that redirect a class the machine registers, and returns how many observations changed |
| ComClasses.ComPasses.RelabelSuperseded | crates/malmathic/src/pipeline.rs:1837-1881 | rewrites exactly the freed registrations whose class still has a live conventional module of that name, and returns how many observations changed |
| ComClasses.GroupClaims | crates/malmathic/src/pipeline.rs:1790-1801 | the map of classes to names holds exactly the claims the list makes |
| ComClasses.RedirectsExactly | crates/malmathic/src/pipeline.rs:1787-1824 | what is promoted, said of the observations: a user's live registration of a server for a class the machine has a live one for, under a path the machine gives that class nowhere |
| ComClasses.SupersededExactly | crates/malmathic/src/pipeline.rs:1837-1881 | what is relabelled: a freed registration of a server for a class the machine has a live one for, in a conventional place, of a module of the same name |
| ComClasses.RelabelledText | crates/malmathic/src/pipeline.rs:1874-1877 | relabelling changes the mark, drops the white space after it, and changes nothing else |
| ComClasses.MachineWideIs | crates/malmathic/src/pipeline.rs:2071-2073 | machine-wide are the two hives, in any case |
| ComClasses.ZonesAre | crates/malmathic/src/pipeline.rs:1761-1771 | the conventional zones and the ordinary ones |
| Observations.SegmentsJoin | crates/malmathic/src/pipeline.rs:2075-2079 | a registry key's segments, joined with backslashes, are the key |
| Observations.SegmentsAreWhole | crates/malmathic/src/pipeline.rs:2075-2079 | no segment holds a backslash |
| Observations.FirstClassIdIs | crates/malmathic/src/pipeline.rs:2075-2079 | a key's class is its first segment in braces with something between them, in lower case |
| Observations.LowerAsciiIs | crates/malmathic/src/pipeline.rs:2071-2079 | equal in lower case means equal but for the case of ASCII letters |
| Observations.TrimStartIs | crates/malmathic/src/pipeline.rs:1875-1875 | what is trimmed is white space, and what is left does not begin with any |
| ComClasses.PromotionIsIdempotent | crates/malmathic/src/pipeline.rs:1787-1824 | promoting twice is promoting once |
| ComClasses.RelabellingIsIdempotent | crates/malmathic/src/pipeline.rs:1837-1881 | relabelling twice is relabelling once |
| ComClasses.RelabellingAddsNoSurvivor | crates/malmathic/src/pipeline.rs:1840-1855 | any machine-wide entry that relabelling brings to life names a module its class already had |
| ComClasses.PassesDoNotInterfere | crates/malmathic/src/pipeline.rs:143-144 | after both passes in the run's order, every observation is what the two rules make of it against the list as it was before either |
| ComClasses.FreedCellsNeverBecomeHijacks | crates/malmathic/src/pipeline.rs:143-144 | the hijacks at the end are those there were and the live redirecting registrations; none of them came from a freed cell |
| ComClasses.OrderMattersExactly | crates/malmathic/src/pipeline.rs:143-144 | the other order gives the same list if and only if relabelling revives no hijack's own path and relabels no user registration of a path the machine does not give that class |
| ComClasses.TheOtherOrderPromotesAFreedCell | crates/malmathic/src/pipeline.rs:143-144 | counterexample: in the other order a registration from a freed cell becomes a hijack |
| Deferral.DeferPasses.Defer | crates/malmathic/src/pipeline.rs:1883-1936 | the list is split into those set aside and those kept, each in its old order |
| Deferral.DeferPasses.Reattach | crates/malmathic/src/pipeline.rs:1897-1908 | those whose path the list holds are appended in order, and the others counted |
| Deferral.DeferPasses.AroundTheWalk | crates/malmathic/src/pipeline.rs:146-184 | three passes out, the walk's additions, three passes back, as one function of the list before |
| Deferral.OnlyKnownPathsComeBack | crates/malmathic/src/pipeline.rs:146-184 | across all of it the set of paths is that of the kept and walked observations, which stand first and in order; each deferred one returns as often as it was there if its path is in that set and not at all otherwise |
| Deferral.DeferredExactly | crates/malmathic/src/pipeline.rs:1773-1783 | what the three passes set aside: live registrations of ordinary servers, antivirus log detections, and values whose key is lost |
| Deferral.RejoinsExactly | crates/malmathic/src/pipeline.rs:1901-1906 | an observation comes back exactly when a kept or walked one has its path key |
| Deferral.ReattachedCounts | crates/malmathic/src/pipeline.rs:1897-1908 | bringing batches back adds no path, so each decision is the one against the list before any came back |
| Deferral.OrderOfReturnDoesNotMatter | crates/malmathic/src/pipeline.rs:180-182 | any order, and any cutting into batches, of the same deferred observations gives the same observations |
| Deferral.KeptIsWhatIsLeft | crates/malmathic/src/pipeline.rs:1883-1936 | three passes one after the other keep exactly what none of the three rules takes, in order |
| Deferral.HijacksAreNeverSetAside | crates/malmathic/src/pipeline.rs:143-168 | after promotion and relabelling no pass sets aside a promoted hijack, nor a registry finding still marked as from a freed cell |
| Junctions.Translate | crates/malmathic/src/pipeline.rs:1238-1252 | the bounded loop gives the key after up to eight rewrites, if it moved |
| Junctions.TranslationFollowsTheDeepest | crates/malmathic/src/pipeline.rs:1228-1252 | each rewrite uses the longest matching prefix of all the rules, there are at most eight, and after fewer than eight no rule applies any more |
| Junctions.SortedIs | crates/malmathic/src/pipeline.rs:1232-1232 | the sorted rules are the same rules, longest prefix first |
| Junctions.LexLessIs | crates/malmathic/src/pipeline.rs:1232-1232 | equally long prefixes are told apart where they first differ |
| Junctions.TranslationIsFinal | crates/malmathic/src/pipeline.rs:1238-1252 | where fewer than eight junctions led, translating again leads nowhere |
| Junctions.RewritesKeepKeys | crates/malmathic/src/pipeline.rs:1247-1247 | a rewrite between two keys turns a key into a key |
| Junctions.JunctionPass.Learn | crates/malmathic/src/pipeline.rs:1258-1287 | the memo of resolved and refused keys agrees with translating and resolving each key directly, and the refused junctions crossed are exactly those on some path |
| Junctions.JunctionPass.Respell | crates/malmathic/src/pipeline.rs:1289-1302 | each observation becomes its respelling, and the count is of those respelled |
| Junctions.JunctionPass.Canonicalize | crates/malmathic/src/pipeline.rs:1217-1302 | the whole pass is the pointwise respelling by the sorted rules |
| Junctions.PassFollowsTheJunctions | crates/malmathic/src/pipeline.rs:1217-1302 | what the pass makes of an observation, said of the junctions: it follows the deepest one over the key that has a target, up to eight times and as long as there is one, and respells exactly when that led elsewhere, to something that resolves and parses; the file table's own observations and those under no such junction stay |
| Junctions.RulesAre | crates/malmathic/src/pipeline.rs:1228-1231 | the rules are those of the junctions that have a place and a target, and no others |
| Junctions.CrossedExactly | crates/malmathic/src/pipeline.rs:1264-1271 | a refused junction is crossed exactly when some observation not of the file table lies under it |
| Junctions.PathsStayOrLead | crates/malmathic/src/pipeline.rs:1289-1302 | an observation keeps its path, or takes what the key that one to eight deepest-prefix rewrites lead to parses to, and that only if the volume resolves that key; the file table's own observations never change |
| Junctions.ASecondPassIsIdle | crates/malmathic/src/pipeline.rs:1217-1302 | for every observation, a second pass changes nothing if and only if its key settles: it is not respelled, or what it becomes is not, or that leads to something spelled the same |
| Junctions.ShortChainsSettle | crates/malmathic/src/pipeline.rs:1238-1252 | a key that fewer than eight junctions lead to a key that parses to itself always settles |
| Junctions.ARingNeverSettles | crates/malmathic/src/pipeline.rs:1217-1302 | counterexample: given a volume that resolves the three paths round a ring of junctions, the pass respells a file behind it, and the next pass respells it again |
| Selection.VerificationBand | crates/malmathic/src/pipeline.rs:2400-2424 | leaving the loop early selects the same candidates, in the same order, as looking at every rank |
| Selection.NothingOutsideTheBandCouldMatter | crates/malmathic/src/pipeline.rs:2400-2424 | a candidate is in the band if and only if it is checkable and ranks below the floor or could reach the threshold |
| Selection.OrderIsARanking | crates/malmathic/src/pipeline.rs:2404-2411 | the sort names every candidate once, no higher score after a lower one, and equal scores by the smaller number |
| Sorting.SortOrders | crates/malmathic/src/pipeline.rs:2405-2411 | sorting keeps every element, and leaves none before one that must not come after it |
| Selection.SampleRun.AcquireSamples | crates/malmathic/src/pipeline.rs:2779-2863 | attempted are the reportable candidates and then a prefix of the others a rule names, as long as the budget of attempts and bytes allows; attempted and declined add up to all of those; the bytes spent stay below the byte budget plus one sample |
| Selection.SampleRun.AcquireReported | crates/malmathic/src/pipeline.rs:2789-2811 | leaving at the first candidate below the threshold misses none of the top ones at or above it |
| Selection.SampleRun.AcquireUnranked | crates/malmathic/src/pipeline.rs:2813-2863 | the second loop attempts within the budget and declines past it, or makes no attempt when its directory cannot be made |
| Selection.NobodyIsAttemptedTwice | crates/malmathic/src/pipeline.rs:2789-2824 | who is attempted, by rank, score and rule; no candidate occurs twice across both loops |
| Selection.BytesAreCharged | crates/malmathic/src/pipeline.rs:2851-2857 | bytes are charged to the budget whether written out or withheld, and nothing else is |
| Selection.ResultsAre | crates/malmathic/src/pipeline.rs:2789-2861 | each candidate attempted has the result of its own attempt, and no other has one |
| Selection.TheWarningOvercounts | crates/malmathic/src/pipeline.rs:2821-2838 | the number warned of is never below the attempts the missing directory prevented, which are those the budget would have allowed, and equals them if and only if a rule names every candidate not reported and the budget reaches to the last |
| Selection.AffordableIs | crates/malmathic/src/pipeline.rs:2821-2824 | the attempts the budget allows of a list are a front of it, and all of it if and only if what comes before the last leaves room for another |
| Selection.OnlyOneFrontIsAfforded | crates/malmathic/src/pipeline.rs:2821-2824 | there is only one such front, so it is what a run with a directory attempts |
| Selection.TheWarningCountsADeclinedOne | crates/malmathic/src/pipeline.rs:2821-2838 | counterexample: of sixty-five candidates rules name, sixty-four attempts were prevented and the warning says sixty-five |
| VersionResource.Node | crates/malmathic/build.rs:109-123 | prints the aligned node, and fails exactly when it would not stay under 64 KB |
| VersionResource.Pad | crates/malmathic/build.rs:129-133 | pads with zeroes to the next multiple of four, and no further |
| VersionResource.NodeDecodes | crates/malmathic/build.rs:109-123 | a printed tree, wherever it lies on a 4-byte boundary in a larger buffer, decodes to the same tree under the VS_VERSIONINFO rules |
| VersionResource.PrintedTreesDecode | crates/malmathic/build.rs:109-123 | it does so if and only if no key holds a NUL and every text value is whole 16-bit units |
| VersionResource.AKeyWithAZeroIsLost | crates/malmathic/build.rs:109-127 | counterexample: a key that is one NUL prints and does not decode to its tree |
| VersionResource.ValueUnitsFit | crates/malmathic/build.rs:112-121 | the checked length also guarantees that the unchecked count of value units is not truncated |
| VersionResource.PrintEntry | crates/malmathic/build.rs:34-50 | prints the resource entry header and padded data |
| VersionResource.EntryDecodes | crates/malmathic/build.rs:34-50 | a printed resource entry decodes to the same entry under the RESOURCEHEADER layout |
| VersionResource.PrintStrings | crates/malmathic/build.rs:70-74 | prints the nodes of the fields that are not empty, in order |
| VersionResource.VersionInfo | crates/malmathic/build.rs:52-87 | prints the tree of fixed part, string table and translation |
| VersionResource.VersionReadsBack | crates/malmathic/build.rs:89-103 | signature and major, minor and patch numbers read back from the fixed part, for the file and the product alike |
| VersionResource.ResourceFile | crates/malmathic/build.rs:28-32 | the file is the empty entry and the version entry, or the tree did not fit |
| VersionResource.ResourceFileDecodes | crates/malmathic/build.rs:28-32 | whatever the package says, the file holds the mandatory empty entry and one version resource, and the tree decodes in place from it |
| VersionResource.ResourceSays | crates/malmathic/build.rs:28-87 | what a reader of the file learns of the package: type, name and language of the entry, the string table's language and code page, the translation, and each of the nine strings under its own name exactly when the package has it, in UTF-16 ended by a zero, and no other |
| VersionResource.StringsSay | crates/malmathic/build.rs:59-74 | the same of the strings before they are printed |
| WordWrap.Wrap | crates/malmathic/src/explain.rs:162-183 | the loop produces the lines of the greedy breaking of the text's words |
| WordWrap.GreedyBreaks | crates/malmathic/src/explain.rs:162-183 | the words come out unchanged and in order, on lines that each fit the width or hold one word |
| WordWrap.OverwideStandsAlone | crates/malmathic/src/explain.rs:167-174 | on such lines a word wider than the width is always alone |
| WordWrap.GreedyIsShortest | crates/malmathic/src/explain.rs:162-183 | no other breaking of the same words under the same rule has fewer lines |
| WordWrap.WrappedTextKeepsItsWords | crates/malmathic/src/explain.rs:162-183 | splitting the printed lines gives back the words of the text |
| DirectoryPaths.ChooseName | crates/malmathic/examples/usndump.rs:40-57 | the loop picks the specified name of the record |
| DirectoryPaths.PreferredIsBest | crates/malmathic/examples/usndump.rs:40-57 | there is one whenever there is any name, it is one of the record's own, and no name outside the DOS namespace ranks better |
| DirectoryPaths.PreferredExactly | crates/malmathic/examples/usndump.rs:40-57 | a record goes by its first long name of the least namespace, the DOS one excepted; failing one by its first name; and by none only if it has none |
| DirectoryPaths.PathsAreSpelled | crates/malmathic/examples/usndump.rs:11-64 | a spelled path means a file record that is a base record, in use, a directory and of the sequence referred to, and is its parent's path and the name it goes by; only the root is spelled by itself |
| DirectoryPaths.Resolver.ResolveDirectory | crates/malmathic/examples/usndump.rs:11-64 | the memoised recursion gives and remembers what the specification does, and ends on every chain of parents, cycles included |
| DirectoryPaths.PathsAreTrue | crates/malmathic/examples/usndump.rs:11-64 | every path returned or remembered is the path spelled by the uncached chain of live directories to the root, every reference's sequence matched; a stale reference is refused even when its record is remembered |
| DirectoryPaths.CacheChangesNothing | crates/malmathic/examples/usndump.rs:35-37 | with a cache whose refusals are true as well, resolving gives exactly the uncached answer and keeps the cache so, as long as the depth limit is not met |
| DirectoryPaths.LostExactly | crates/malmathic/examples/usndump.rs:11-64 | from any cache whose paths are true, whatever false refusals it holds: a path is refused if and only if there is none or it is lost, that is, its chain meets the depth limit or a record remembered without a path; a resolution that loses one makes a false entry of exactly the records it adds, and any other makes none |
| DirectoryPaths.WalkedIsRemembered | crates/malmathic/examples/usndump.rs:35-63 | a resolution adds exactly the records it walked and changes no entry there was |
| DirectoryPaths.ExactStaysExact | crates/malmathic/examples/usndump.rs:11-64 | from a cache without false entries, it stays so if and only if no chain that leads to the root outruns the limit |
| DirectoryPaths.FalsehoodSpreads | crates/malmathic/examples/usndump.rs:35-63 | a record whose parent is falsely remembered is refused and falsely remembered in turn, at any depth |
| DirectoryPaths.FirstCacheIsExact | crates/malmathic/examples/usndump.rs:11-64 | what a first resolution remembers is true if and only if its chain keeps within the limit or leads nowhere |
| DirectoryPaths.OneAnswer | crates/malmathic/examples/usndump.rs:11-64 | a chain of parents has at most one answer, however far it is followed |
| DirectoryPaths.LimitIsRemembered | crates/malmathic/examples/usndump.rs:21-23 | a resolution that runs out of depth remembers its record as having no path |
| DirectoryPaths.LimitPoisonsTheParent | crates/malmathic/examples/usndump.rs:58-63 | on every volume where a record lies too deep and its parent does not, the parent resolves before the record was asked for and not after |
| DirectoryPaths.ANestedDirectoryIsPoisoned | crates/malmathic/examples/usndump.rs:11-64 | counterexample: on a volume of nested directories the 64th is refused once the 65th has been asked for, and the cache holds a falsehood |
| DirectoryPaths.AShallowDirectoryIsPoisonedToo | crates/malmathic/examples/usndump.rs:11-64 | counterexample: after the 65th directory has been asked for, one three steps below the root that was never on its chain is refused and falsely remembered |

## Left out

- The parsing of NTFS structures, registry hives, event logs, PE resources and compressed files, hashing and signature checks: inputs of the model, as functions.
- How each recovery step finds its bytes (`from_volume`, `from_quarantine` and the others up to their call of `save`): a step yields nothing, a refusal, or bytes with the few facts its verdict turns on; the verdicts built on the bitmap are in `Clusters.dfy`.
- Coverage lines, warnings and notes other than the counts in them, progress display, prompts, the command line and the Python bindings.
- The observations the junction pass appends for files it newly reaches, and its notes: it visits them in the order of a hash map and may add a file reached by two aliases twice.
- Fields of index slack entries that are only copied (created and modified times), and its counters of slack bytes and refused live entries.
- `OrphanIndex::build`, `over_the_cap`, `unsearchable`, `worth_observing`, the unranked rules' own tests and similar single-candidate predicates: they would only add easy members.
- Deferral.DeferPasses.AroundTheWalk: takes what the walk adds as a list, because what it observes depends on the file system alone; the set of referenced keys it is given only decides how much it adds.
- VersionResource.VersionReadsBack: starts from the three version numbers as parsed; parsing them out of the package's version text is not modelled.
- Selection.SampleRun.AcquireSamples: bounds the bytes spent under the assumption that each recovered sample fits the sample limit; the reads that would enforce it are inputs of the model.
- Clusters.Conservation: claims nothing for runlists that declare more clusters than 64 bits count, where the source's sum of the four counters may overflow.
- The volume reference a path may carry: every pass copies it and none reads it.
- DeepScan.WhatIsThereIsFound: speaks of images whose headers lie in the first 8 KiB of their free run; the overlap between chunks guarantees no more.
