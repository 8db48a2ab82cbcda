# A verified model of runboxd

runboxd is a daemon that runs untrusted code behind an HTTP API, in Docker containers or
under nsjail, and a tool, runboxctl, that builds its language images. This project models
the logic of both in Dafny and proves what it is meant to guarantee:

- **Admission** (`PoolModel`, `PoolSafety`, `PoolBurst`, `PoolProgress`, `WorkerPool`): the
  worker pool as a transition system over any number of requests, whose channel and counter
  move in separate atomic steps, and the middleware itself as a method with the other
  requests acting between its steps.
- **Containers** (`DockerModel`, `DockerSafety`, `DockerLives`): runs, lost replies, failed
  removals, crashes, outside removals and reaper passes, in any interleaving. `DockerSandbox`
  is the code of one run and of one reaper pass, `DockerRefines` ties it to the interleavings,
  `LimitWriter` is the capped output.
- **nsjail** (`Nsjail`, `NsjailRun`): the two stages of a run, the numbers written into the
  configuration, and the deadlines around them.
- **Limits** (`ResourceLimits`, `Api`): from registry settings and requests to what is
  enforced, in wrapping 64-bit arithmetic (`GoInt`).
- **Workspaces** (`Paths`, `FileTree`, `Workspace`, `WorkspaceSetup`): lexical path cleaning
  and the staging of a request's files, with a failure possible at every call.
- **Registry** (`Strings`, `LangFilter`, `ImageSpec`, `Registry`, `GenImages`,
  `RegistryPipeline`, `GenLock`): filters, loading, filtering, merging over several runs, and
  the concurrent lockfile.
- **Shell quoting** (`ShellQuote`): the printer, and the POSIX shell's token recognition and
  quote removal as its parser.
- **Caches** (`ContextHash`, `ImageCache`, `ImageStore`, `RootfsExport`, `ExportPipeline`): the
  skip decisions of build-images, for one image and for all images over their shared hash files
  and tags, those of export-rootfs, and both commands in sequence, with runs that stop anywhere.

Where a promise turned out not to hold of the code, the code is modelled as it is, a lemma
gives an input that breaks the promise, and another says when it holds:

- A 429 does not mean that the queue is full: `PoolSafety.RejectedWithEmptyQueue`, with
  `PoolSafety.UnfairRejection` for the exact condition.
- A configured queue length of 2^31 gives no queue: `PoolSafety.HugeQueueIsNoQueue`, with
  `PoolSafety.QueueAsConfigured`.
- A request for 2^55 + 1 seconds is accepted and runs for one second:
  `Api.HugeTimeoutAccepted`, with `Api.SecondsAsAsked`.
- A configured maximum of 2^44 + 64 MiB passes validation and is enforced as 64 MiB:
  `ResourceLimits.HugeMemoryWraps`, with `ResourceLimits.SettingsKeptExactly` for memory and
  timeouts and `ResourceLimits.SizesKeptExactly` for the file systems.
- A run whose container is a minute old can lose it to the reaper while it is still running,
  and nothing keeps a configured timeout below a minute (`ResourceLimits.PlainAcceptedExactly`):
  `DockerSafety.LiveRunReaped`, with `DockerSafety.NextRemovesExactly`.
- The deadline around nsjail can overflow: `Nsjail.LayeringCanOverflow`, with
  `Nsjail.LayeringIn64Bits`.
- nsjail may report "ok" for a program that never ran: `NsjailRuns.OkWithoutRunning`, with
  `NsjailRuns.OkIsTruthfulExactly`.
- The configured name of the code file is not checked and may leave the input directory:
  `WorkspaceSetup.CodeNameMayLeave`, with `WorkspaceSetup.CodeNameStaysExactly` and
  `Paths.JoinStaysExactly`.
- A filter for `python/` loads a specification but fits no registry:
  `RegistryPipeline.UnplainMayLoad`, with `RegistryPipeline.FailuresAgreeExactly`.
- A build or an export is skipped wrongly when a hash returns: `ImageCaches.StaleSkip` and
  `RootfsExports.UnfinishedSkip`, with the three lemmas `SkipsSoundExactly`.
- A build is skipped wrongly when another image has written the same hash file, such as language
  `a-b` version `c` and language `a` version `b-c`: `ImageStores.SharedFileSkipsWrongly`, with
  `ImageStores.ImagesSoundExactly` and, as a check on names, `ImageStores.PlainImagesApartExactly`.
- An export stopped over its own digest is taken for finished:
  `RootfsExports.StoppedOverOwnDigest`. One made before its image was rebuilt keeps the old image
  for good: `ExportPipelines.OldImageStays`, with `ExportPipelines.ExportsFreshExactly`.
- A line that moves from the wrapper to the Dockerfile does not change the hash:
  `ContextHashes.MovedBoundaryKeepsHash`, with `ContextHashes.BoundaryIsLost`.
- Filtered runs can leave a registry the daemon refuses, one without a default version:
  `RegistryPipeline.UnstartableRun`, with `RegistryPipeline.StartableExactly`.
- Versions `3` and `./3` share one Dockerfile: `GenImages.DottedVersionSharesDir`, with
  `GenImages.FilesRightExactly`.

`docs/authoring-languages.md` says that the name in a specification matches its directory.
The code never checks it; the theorems that need it say so (`GoodTree`).

`dafny verify dfyconfig.toml` checks everything.

## Model

| member | source | states |
|---|---|---|
| PoolModel.StepEffect | internal/api/workerpool.go:24-42 | every atomic step moves one request and changes the channel by what that request takes or gives back |
| PoolModel.StepKeepsInv | internal/api/workerpool.go:24-42 | occupancy = slot holders <= size and counter = requests between their two additions survive every step |
| PoolSafety.PoolInvariant | internal/api/workerpool.go:21-44 | in every reachable state: occupancy is exactly the slots in use and at most size; the 32-bit counter is the number of counted requests; those past the check never exceed the limit |
| PoolSafety.CountDecides | internal/api/workerpool.go:27-31 | the limit check sheds exactly when the limit of requests is still counted, queued or not |
| PoolSafety.RejectedBecauseCrowded | internal/api/workerpool.go:24-31 | behind every 429 lie a moment with every slot taken and a later one with at least the limit of other requests counted |
| PoolSafety.UnfairRejection | internal/api/workerpool.go:27-36 | a request is shed with room in the queue exactly when requests about to uncount themselves fill the difference |
| PoolSafety.RejectedWithEmptyQueue | internal/api/workerpool.go:27-34 | a schedule in which a request gets 429 although nobody is queued |
| PoolSafety.FewRequestsFit | internal/api/workerpool.go:10-11 | the 32-bit counter cannot overflow while there are fewer than 2^31 requests |
| PoolSafety.QueueAsConfigured | internal/api/workerpool.go:14-19 | the queue is as long as configured exactly when the length fits 32 bits |
| PoolSafety.HugeQueueIsNoQueue | internal/api/workerpool.go:14-19 | a length of 2^31 gives an empty queue |
| PoolBurst.FullStaysFull | internal/api/workerpool.go:24-40 | once anyone is shed in a burst, the queue is full and stays full |
| PoolBurst.BurstExact | internal/api/workerpool.go:24-40 | n requests in any interleaving, none returning or giving up: min(n, size) run, the queue holds exactly what it may of the rest, all others got 429 |
| PoolBurst.BurstGoesOn | internal/api/workerpool.go:24-40 | a burst with someone neither parked nor answered has a next step |
| PoolProgress.EveryScheduleEnds | internal/api/workerpool.go:21-44 | no schedule of n requests has more than 5n steps |
| PoolProgress.NeverStuck | internal/api/workerpool.go:21-44 | with a slot, someone unanswered always has a step that is not a timeout |
| PoolProgress.ReturnPossible | internal/api/workerpool.go:41 | giving a slot back never blocks |
| PoolProgress.StuckWithoutSlots | internal/config/config.go:67-77 | with size 0 a queued request can only time out, so the configured minimum of 1 is needed |
| PoolProgress.EveryoneIsAnswered | internal/api/workerpool.go:21-44 | a schedule that cannot go on has answered everyone, with the channel empty and the counter 0 |
| PoolProgress.EachRequestTakesOnePath | internal/api/workerpool.go:21-44 | the events of each request are one path of the handler: served once, 429 or 408, each addition undone once |
| WorkerPools.WorkerPool.constructor | internal/api/workerpool.go:14-19 | a new pool is the initial state, its limit truncated to 32 bits |
| WorkerPools.WorkerPool.TryAcquire | internal/api/workerpool.go:24-26 | the first select takes a slot exactly when one is free |
| WorkerPools.WorkerPool.AddWaiting | internal/api/workerpool.go:27 | Add(1) and the comparison of its result are one step of the model |
| WorkerPools.WorkerPool.Acquire | internal/api/workerpool.go:33 | the send of the second select is the grant of the model |
| WorkerPools.WorkerPool.SubWaiting | internal/api/workerpool.go:28-36 | Add(-1) leads to serving, 408 or 429 by where the request stood |
| WorkerPools.WorkerPool.Release | internal/api/workerpool.go:41 | the deferred receive returns the slot, after a panic too |
| WorkerPools.WorkerPool.Await | internal/api/workerpool.go:32-39 | the second select, look after look: granted, expired, or blocked with the pool full and the context alive every time |
| WorkerPools.WorkerPool.Middleware | internal/api/workerpool.go:21-44 | with other requests acting between its steps, the handler is an execution of the model that keeps its invariant, takes one path, and answers as that path ends; it stays blocked only while the pool is full and its context has not ended at every look |
| DockerSafety.ContainersAccountedFor | internal/sandbox/docker.go:203-298 | in every interleaving a container exists only while its own run is between create and removal or leaked it by a lost reply, a failed removal or a crash; no run knows another's container |
| DockerSafety.StepKeepsInv | internal/sandbox/docker.go:203-298 | every step of runs, daemon, reapers and crashes keeps the ownership and pass invariants |
| DockerSafety.OrphanExactly | internal/sandbox/docker.go:409-411 | a container is selected exactly when the whole seconds of its creation and of now differ by at least 60 |
| DockerSafety.AgeBounds | internal/sandbox/docker.go:409-411 | what is selected is over 59 s old, what is 60 s old is selected, and both bounds are reached |
| DockerSafety.ReaperSparesTheYoung | internal/sandbox/docker.go:363-383 | no reaper step, in any interleaving, removes a container of 59 s or less |
| DockerSafety.NextRemovesExactly | internal/sandbox/docker.go:374-382 | a reaper step removes a container exactly when it is the one met, the removal works and at least 60 whole seconds lie between its creation and the reading of the clock, whether its run is over or not |
| DockerSafety.LiveRunReaped | internal/sandbox/docker.go:374-382 | a schedule for every age from 60 s in which a run in its body loses its container |
| DockerSafety.PassRemovesTheOld | internal/sandbox/docker.go:363-383 | a pass that left no orphan it met has removed everything that was 60 s old at its listing, whatever went on meanwhile |
| DockerLives.EveryRunHasOneLife | internal/sandbox/docker.go:203-298 | the events of a run in any interleaving are one of the listed lives, in order |
| DockerLives.OneRemovalPerRun | internal/sandbox/docker.go:219-225 | a run that got its container and is through without a crash tried to remove it exactly once |
| DockerSandboxes.DockerSandbox.Run | internal/sandbox/docker.go:169-299 | the container is made from the image of the version asked for, or of the default one when none is, with the clamped memory; an unknown language or version is refused and nothing is called; calls and result for every answer of the outside world |
| DockerSandboxes.CallsExactly | internal/sandbox/docker.go:227-290 | each call on the container is made exactly on its own condition, and awaits its exit for the clamped timeout |
| DockerSandboxes.CallsInOrder | internal/sandbox/docker.go:227-290 | these calls come in the order of the code, each at most once |
| DockerSandboxes.ReportsExactly | internal/sandbox/docker.go:227-298 | the result in terms of what happened alone: internal error, timeout, OOM, or exit code, status (100 is a compile error) and the first mebibyte of each stream |
| DockerSandboxes.StreamExactly | internal/sandbox/docker.go:285-289 | a stream is all that was sent to it, in order, and nothing of the other one |
| LimitWriters.FirstExactly | internal/sandbox/docker.go:46-58 | what is kept is the longest prefix within the limit |
| DockerSandboxes.OneRemovalOnEveryPath | internal/sandbox/docker.go:173-299 | every path after a successful create asks once for the removal of that container, after all its uses and before the workspace goes; no path removes anything else |
| DockerRefines.RunIsOneLife | internal/sandbox/docker.go:169-299 | the calls of the code's run are a complete life of the concurrent model |
| DockerSandboxes.DockerSandbox.WaitAndCollect | internal/sandbox/docker.go:250-298 | timeout, OOM (137 included), exit status and capped output exactly as the wait ended |
| DockerSandboxes.DockerSandbox.ReapOrphans | internal/sandbox/docker.go:363-383 | a pass leaves exactly the containers that are no orphans or whose removal fails; a failed listing leaves all |
| DockerModel.ListingAt | internal/sandbox/docker.go:364-371 | a listing holds every managed container once it is asked for, with its creation time in whole seconds |
| DockerSandboxes.Demux | internal/sandbox/docker.go:285-295 | each of the two streams is the first mebibyte of what was sent to it |
| LimitWriters.LimitWriter.Write | internal/sandbox/docker.go:46-62 | the buffer is the first n bytes of everything written so far, and every write reports full length |
| NsjailRuns.NsjailSandbox.Run | internal/sandbox/nsjail.go:216-320 | a compiled language with a build command enters the build jail exactly when workspace, directory and configuration are fine, and the run jail only after it ended with 0 in time; others enter the run jail alone; each jail has the root and the command of the version asked for or the default one, and the limits of its stage; unknown languages and versions are refused |
| NsjailRuns.ReportsExactly | internal/sandbox/nsjail.go:224-319 | the result in terms of what happened alone, for both stages |
| NsjailRuns.EveryJailIsLayered | internal/sandbox/nsjail.go:235-288 | each jail of a validated language has a limit that covers its timeout and falls before its deadline, memory within its allowance, and runs only after a passed build |
| NsjailRuns.OkIsTruthfulExactly | internal/sandbox/nsjail.go:291-308 | "ok" means an exit with code 0 exactly when the process was started |
| NsjailRuns.OkWithoutRunning | internal/sandbox/nsjail.go:291-308 | a run stage that could not be started is reported as "ok" with exit code 0 |
| Nsjail.WriteConfig | internal/sandbox/nsjail.go:346-390 | the numbers in the configuration of the run stage, and those that the build stage overwrites |
| Nsjail.CeilBounds | internal/sandbox/nsjail.go:357 | whole seconds cover the timeout and exceed it by less than a second |
| Nsjail.TimeoutLayering | internal/sandbox/nsjail.go:235-280 | for every validated language, stage and request: timeout <= jail limit < timeout + 1 s < outer deadline |
| Nsjail.LayeringIn64Bits | internal/sandbox/nsjail.go:240-280 | in 64 bits the deadline stays after the limit exactly when adding the grace does not overflow |
| Nsjail.LayeringCanOverflow | internal/sandbox/nsjail.go:240-280 | validated limits for which it overflows |
| Nsjail.MemoryLayering | internal/sandbox/nsjail.go:358 | the jail gets at least 1 MiB, never more than the stage may use, and less than 1 MiB short of it |
| ResourceLimits.BytesWholeMiB | internal/sandbox/limits.go:58-66 | sizes stay whole MiB through wrapping multiplication |
| ResourceLimits.ValidExactly | internal/sandbox/limits.go:81-152 | what validation asks for, in both stages |
| ResourceLimits.ResolvedRest | internal/sandbox/limits.go:74-75 | process and CPU limits are kept or defaulted to 100 and 0.5, and the defaults of the compile stage |
| ResourceLimits.ValidatedLimits | internal/sandbox/limits.go:56-115 | for all 64-bit settings, limits that pass validation are positive and ordered, with at least 1 MiB |
| ResourceLimits.ValidatedCompileLimits | internal/sandbox/limits.go:117-152 | the same for the compile stage |
| ResourceLimits.EffectiveWithinLimits | internal/sandbox/docker.go:452-464 | every request ends within the limits, unchanged when inside, at the nearest limit when outside, at the maximum when unset |
| ResourceLimits.PlainAcceptedExactly | internal/sandbox/limits.go:51-115 | settings that do not wrap are refused exactly when an explicit minimum exceeds the maximum in force, and a low maximum alone is accepted |
| ResourceLimits.BytesIsProduct | internal/sandbox/limits.go:58-64 | wrapping after each of two multiplications is wrapping once |
| ResourceLimits.SettingsKeptExactly | internal/sandbox/limits.go:56-79 | each of the four settings is enforced as written exactly when its conversion fits 64 bits |
| ResourceLimits.CompileSettingsKeptExactly | internal/sandbox/limits.go:117-126 | the same for the compile stage |
| ResourceLimits.SizesKeptExactly | internal/sandbox/limits.go:76-77 | the sizes of workspace and tmp are enforced as written exactly when they fit, in both stages |
| ResourceLimits.HugeMemoryWraps | internal/sandbox/limits.go:56-115 | limits that wrap and pass validation: 2^44 + 64 MiB are enforced as 64 MiB |
| Api.AcceptedExactly | internal/api/api.go:183-216 | a request is accepted exactly when no field is negative and each is unset or, converted, within the limits |
| Api.CheckAgreesWithClamp | internal/api/api.go:183-196 | an accepted request reaches the sandbox with values the clamp leaves alone, or the maximum where a field is 0, even when seconds wrap |
| Api.SecondsAsAsked | internal/api/api.go:185 | it runs for the seconds it named exactly when they fit in 64 bits of nanoseconds |
| Api.HugeTimeoutAccepted | internal/api/api.go:184-188 | 2^55 + 1 seconds are accepted and run for one |
| Api.ValidateWorkspaceFiles | internal/api/api.go:219-232 | accepted exactly when there are at most 12 files, all local and small enough; else the first offender is named; accepted paths pass the test of staging |
| Paths.WalkAlike | internal/sandbox/docker.go:437 | below a root, cleaning a path that does not climb gives the root and its own cleaned names |
| Paths.JoinBelow | internal/sandbox/docker.go:434-445 | a joined path is the root and the cleaned path exactly when the cleaned path does not climb |
| Paths.LocalExactly | internal/sandbox/docker.go:434 | a path is local exactly when it is not empty, not rooted and never gets above where it starts |
| Paths.JoinLands | internal/sandbox/docker.go:445 | any joined path is the root without as many names as the cleaned path climbs, followed by the rest of it |
| Paths.JoinStaysExactly | internal/sandbox/docker.go:445 | it stays below the root exactly when the names it climbs past come right back |
| FileTrees.MkdirAllMakesTheWay | internal/sandbox/docker.go:438 | directories can be made exactly when no file is in the way; then all on the way are directories and nothing else changes |
| FileTrees.PutFilePuts | internal/sandbox/docker.go:437-443 | a file with its directories can be written exactly when no file is in the way and no directory has its name; then only those paths change |
| Workspaces.PutKeeps | internal/sandbox/docker.go:433-444 | staging one more file succeeds exactly when its name fits the names so far, and gives the tree with that file |
| WorkspaceSetup.CodeWrite | internal/sandbox/docker.go:445-448 | the code file, written without making directories, fits exactly when its name does and its directory is there |
| WorkspaceSetup.Host.Break | internal/sandbox/docker.go:426-448 | a failing call leaves things behind in the workspace only, except that the write of the code may leave them where the code goes |
| WorkspaceSetup.Host.StageFile | internal/sandbox/docker.go:433-444 | one file is staged exactly when it is local, fits and no call fails |
| WorkspaceSetup.Host.SetupWorkspace | internal/sandbox/docker.go:413-450 | staging succeeds exactly when the request is stageable and no call fails, for any paths in any order; then the tree is the last-writer-wins map with the code on top; on an error everything is as before, given that removal works, except possibly at a code path outside the workspace whose write failed |
| WorkspaceSetup.LastWriterWins | internal/sandbox/docker.go:433-444 | a name holds the content of the last file that cleans to it |
| WorkspaceSetup.OnlyWrittenNames | internal/sandbox/docker.go:433-444 | only names some file cleans to are there |
| WorkspaceSetup.StagedTree | internal/sandbox/docker.go:413-450 | the code has its name whatever is sent, nothing that was there changes, and all that is new lies below the input directory or is the workspace itself |
| WorkspaceSetup.CodeNameStaysExactly | internal/sandbox/docker.go:445 | the exact condition on a code name for its file to be below the input directory |
| WorkspaceSetup.CodeNameMayLeave | internal/sandbox/docker.go:445 | a configured code name that climbs lands outside the input directory |
| LangFilter.ParseLangFilter | internal/imagespec/imagespec.go:76-106 | accepted exactly when no entry is too long or lacks a language; then the filter is its meaning; else the first bad entry is reported |
| LangFilter.DedupeLangFilter | internal/imagespec/imagespec.go:108-129 | each list becomes its sorted distinct non-empty versions, or all when there are none |
| LangFilter.MeaningExactly | internal/imagespec/imagespec.go:76-129 | for each language of the entries: all versions when ignored, when some entry names none or all only empty ones; else exactly the non-empty ones named, increasing |
| LangFilter.RefusedExactly | internal/imagespec/imagespec.go:79-85 | an entry is refused exactly when it is longer than 100 bytes or has no language, and the error says which |
| LangFilter.OrderIndependent | internal/imagespec/imagespec.go:76-129 | lists with the same entries are both refused or give the same filter |
| LangFilter.AcceptedIsClean | internal/imagespec/imagespec.go:76-129 | every accepted filter can be written down within the length limit |
| LangFilter.PrintThenParse | internal/imagespec/imagespec.go:76-129 | any printing of such a filter parses back to it |
| Strings.JoinSplit | internal/imagespec/imagespec.go:97-99 | joining what was split gives the string back |
| Strings.LessExactly | internal/imagespec/imagespec.go:126 | the order is that of bytes |
| Strings.IncreasingUnique | internal/imagespec/imagespec.go:126 | a sorted list of distinct strings is determined by its elements |
| ImageSpecs.ValidateSpec | internal/imagespec/imagespec.go:249-287 | no error exactly for valid specifications, in any map order, and errors name a version that has the fault |
| ImageSpecs.FilterVersions | internal/imagespec/imagespec.go:196-206 | what is kept and, in order, what is missing |
| ImageSpecs.LoadOneExactly | internal/imagespec/imagespec.go:162-184 | one language gives the specification of its cleaned directory with exactly the versions asked for, or the reason, naming exactly the versions that do not exist |
| ImageSpecs.LoadFiltered | internal/imagespec/imagespec.go:162-189 | all errors, or all entries, in the order of the walk |
| ImageSpecs.LoadsWhenAllLoad | internal/imagespec/imagespec.go:162-189 | a filter loads exactly when each of its languages does, whatever the order |
| ImageSpecs.AllExactly | internal/imagespec/imagespec.go:140-155 | the entries are exactly the subdirectories with a specification, the errors exactly those that cannot be read |
| ImageSpecs.LoadAll | internal/imagespec/imagespec.go:135-160 | without a filter, every directory with a specification; or the unreadable ones, or the image directory itself |
| Registries.NoErrors | internal/registry/registry.go:37-68 | the two walks find no error exactly when everything asked for exists |
| Registries.SelectAll | internal/registry/registry.go:41-57 | the languages kept, those seen and the unknown versions after the first walk |
| Registries.Registry.Filter | internal/registry/registry.go:37-68 | it succeeds exactly when every language and version asked for exists; then exactly those are left, otherwise as they were; or it stays as it was |
| Registries.ErrorsExactly | internal/registry/registry.go:47-62 | every unknown language and every unknown version is named in the errors, and nothing else |
| GenImages.PinnedAgain | cmd/runboxctl/cmd/images/genimages.go:139-142 | pinning a pinned base image replaces its digest |
| GenImages.Untouched | cmd/runboxctl/cmd/images/genimages.go:122-128 | exactly the versions this run does not regenerate are carried over |
| GenImages.GenerateVersion | cmd/runboxctl/cmd/images/genimages.go:131-151 | a version is generated exactly when its digest is there and the disk takes it, with its own name, image and commands in the registry, and the base image pinned in place of an old digest, kind, setup and commands in the Dockerfile |
| GenImages.GenerateEntry | cmd/runboxctl/cmd/images/genimages.go:111-152 | a language becomes the merge of what was there with what is regenerated |
| GenImages.GenImages | cmd/runboxctl/cmd/images/genimages.go:104-165 | every version of every readable entry has its own image and commands, every language its own fields, and all else is as before; the registry is ready exactly when every version of every readable entry was generated, and is then the merge of all; else the failure is that of some version; every file written by then is that of a version with its directory there, and after a whole run every version has a file |
| GenImages.MergedHolds | cmd/runboxctl/cmd/images/genimages.go:104-153 | the merged registry, entry by entry and field by field |
| GenImages.FieldByField | cmd/runboxctl/cmd/images/genimages.go:139-151 | registry entry and Dockerfile of a version, field by field |
| GenImages.PlainVersionDir | cmd/runboxctl/cmd/images/genimages.go:169 | a plain version name is a directory below its language's |
| GenImages.FilesRightExactly | cmd/runboxctl/cmd/images/genimages.go:168-204 | after a whole run every version has its own Dockerfile exactly when no two versions whose directories clean to one ask for different ones |
| GenImages.DottedVersionSharesDir | cmd/runboxctl/cmd/images/genimages.go:169 | a version name with a leading "./" has the directory of the name without it |
| RegistryPipeline.OthersKept | cmd/runboxctl/cmd/images/genimages.go:85-103 | a run leaves languages alone that it does not load |
| RegistryPipeline.UntouchedVersionKept | cmd/runboxctl/cmd/images/genimages.go:121-128 | a run leaves versions alone that it does not load |
| RegistryPipeline.MergeIdempotent | cmd/runboxctl/cmd/images/genimages.go:84-153 | repeating a run changes nothing |
| RegistryPipeline.UnfilteredRun | cmd/runboxctl/cmd/images/genimages.go:84-153 | an unfiltered run writes exactly the registry of all languages and versions |
| RegistryPipeline.RunsAddUp | cmd/runboxctl/cmd/images/genimages.go:84-153 | after any filtered runs the registry is exactly the part of the full one that some run named |
| RegistryPipeline.RunGenImages | cmd/runboxctl/cmd/images/genimages.go:55-166 | the whole command: which step fails, and that what it writes is the run of the lemmas on top of the old registry, or the unfiltered one from scratch |
| RegistryPipeline.StartableExactly | internal/sandbox/docker.go:130-135 | the registry after filtered runs has every default version the daemon asks for exactly when each language named had its default version named |
| RegistryPipeline.UnstartableRun | internal/sandbox/docker.go:130-135 | one run for a version that is not the default leaves a registry without it |
| RegistryPipeline.RunsConverge | cmd/runboxctl/cmd/images/genimages.go:84-153 | filtered runs that cover everything end in the registry of one unfiltered run |
| RegistryPipeline.RunOrderDoesNotMatter | cmd/runboxctl/cmd/images/genimages.go:84-153 | neither order nor repetition of filtered runs matters |
| RegistryPipeline.FilterCommutes | internal/registry/registry.go:37-68 | generating from filtered specifications is filtering the generated registry, and both fail on the same filters |
| RegistryPipeline.FailuresAgreeExactly | internal/imagespec/imagespec.go:162-189 | loading and filtering refuse a filter together in every good tree exactly when its languages are plain directory names |
| RegistryPipeline.UnplainNeverFits | internal/registry/registry.go:58-62 | such a name fits no registry |
| RegistryPipeline.UnplainMayLoad | internal/imagespec/imagespec.go:163-164 | and yet a name with a trailing slash loads |
| GenLock.LockRun.RecordDigest | cmd/runboxctl/cmd/images/genlock.go:100-103 | one entry is set, the rest of the lockfile stays |
| GenLock.LockRun.Advance | cmd/runboxctl/cmd/images/genlock.go:68-121 | the code between two lock operations of a goroutine is the next step of the model |
| GenLock.LockRun.Summary | cmd/runboxctl/cmd/images/genlock.go:138-151 | kept and unpinned failures are counted and add up |
| GenLock.LockIsPointwise | cmd/runboxctl/cmd/images/genlock.go:66-125 | however goroutines interleave, the lockfile is a pointwise function of lookups, old lockfile and flag, and each job that is not fresh is reported once, as kept or unpinned |
| GenLock.JobsExactly | cmd/runboxctl/cmd/images/genlock.go:66-125 | after every complete interleaving, for each job: a digest that was found is locked and nothing is reported; when the lookup fails a non-empty old digest is kept and reported unless stale ones are dropped; otherwise there is no entry and the job is reported as unpinned; and nothing else is in the lockfile |
| GenLock.KeptExactly | cmd/runboxctl/cmd/images/genlock.go:141-149 | what counts as kept are the kept failures |
| GenLock.LockUnique | cmd/runboxctl/cmd/images/genlock.go:66-125 | that function determines the lockfile |
| GenLock.Confluent | cmd/runboxctl/cmd/images/genlock.go:66-125 | any two complete interleavings end alike |
| GenLock.GenImagesFindsDigests | cmd/runboxctl/cmd/images/genimages.go:131-138 | gen-images finds every digest exactly when no job was left unpinned and no lookup came back empty |
| ShellQuote.ShellJoin | cmd/runboxctl/cmd/images/genimages.go:215-221 | the loop builds the quoted arguments, joined by blanks |
| ShellQuote.EscapeExactly | cmd/runboxctl/cmd/images/genimages.go:218 | every single quote becomes the four characters of the source, everything else stays |
| ShellQuote.OrdinaryText | images/c/wrapper.sh:5 | ordinary text is one word to the shell |
| ShellQuote.TokensOfJoin | cmd/runboxctl/cmd/images/genimages.go:215-221 | the shell's tokens of the line are the quoted arguments, one each |
| ShellQuote.ShellRoundTrip | cmd/runboxctl/cmd/images/genimages.go:215-221 | the shell reads the line back as exactly the argument list, for arguments of any characters a shell can be given (all but NUL) |
| ShellQuote.ShellJoinInjective | cmd/runboxctl/cmd/images/genimages.go:215-221 | different argument lists never give the same line |
| ContextHashes.BoundaryIsLost | cmd/runboxctl/cmd/images/utils.go:14-26 | contexts with the same hashed bytes differ exactly when their Dockerfiles differ in length |
| ContextHashes.MovedBoundaryKeepsHash | cmd/runboxctl/cmd/images/utils.go:14-26 | moving text across the boundary of the two files changes no digest |
| ImageCaches.NextKeepsInv | cmd/runboxctl/cmd/images/buildimages.go:55-85 | a whole hash on file was taken no later than its tag was built, through every stop and image removal |
| ImageCaches.SkipsSoundExactly | cmd/runboxctl/cmd/images/buildimages.go:65-69 | for one image on its own, a skipped build always means a tag built from the current context, if and only if between equal hashes the context never changed |
| ImageCaches.StaleSkip | cmd/runboxctl/cmd/images/buildimages.go:55-85 | for any moments that break the condition, the two runs that skip a stale image |
| ImageCaches.FinishedBuildIsSkipped | cmd/runboxctl/cmd/images/buildimages.go:65-69 | a finished build is not repeated while hash and image stay |
| ImageCaches.PlainHashFile | cmd/runboxctl/cmd/images/buildimages.go:55 | the hash of plain names lies in the cache directory under both names |
| ImageCaches.HashFilesCollideExactly | cmd/runboxctl/cmd/images/buildimages.go:55 | two images share a hash file exactly when their file names clean to one folder and end in the same part |
| ImageCaches.PlainNamesCollideExactly | cmd/runboxctl/cmd/images/buildimages.go:55 | names without slashes share one exactly when a dash of a language name can be read as the separator |
| ImageCaches.SlashesMayCollide | cmd/runboxctl/cmd/images/buildimages.go:55 | a version with "/../" in it can share the hash file of any other image |
| ImageStores.ImageStore.Build | cmd/runboxctl/cmd/images/buildimages.go:49-87 | one goroutine skips exactly when caching is on, the file holds the non-empty hash, the tag is there and can be inspected; otherwise it leaves the new build under its tag and, when it gets there and the folder exists, the hash in its file; nothing else changes |
| ImageStores.StepKeepsInv | cmd/runboxctl/cmd/images/buildimages.go:55-85 | among images that are apart no run disturbs what holds of another image |
| ImageStores.ImagesSoundExactly | cmd/runboxctl/cmd/images/buildimages.go:47-85 | for a set of images every skip is sound, whatever the steady contexts and the digest, if and only if no image that can write its hash file shares it or its tag with another |
| ImageStores.SkipsSoundExactly | cmd/runboxctl/cmd/images/buildimages.go:47-85 | for images that are apart every skip is sound if and only if the contexts of those that can write their hash files are steady |
| ImageStores.SharedFileSkipsWrongly | cmd/runboxctl/cmd/images/buildimages.go:55-69 | any two images with one hash file have three runs, all contexts steady, the last of which skips wrongly |
| ImageStores.SharedTagSkipsWrongly | cmd/runboxctl/cmd/images/buildimages.go:52-69 | so have any two images with one tag |
| ImageStores.PlainImagesApartExactly | cmd/runboxctl/cmd/images/buildimages.go:52-55 | images with names without slashes and colons are apart exactly when no two are the same and no dash of a language reads as the separator |
| RootfsExports.RootfsExport.Export | cmd/runboxctl/cmd/images/exportrootfs.go:50-124 | one goroutine skips exactly when not forced, the digest is current and the directory has entries; otherwise each place to stop leaves the directory and digest it says |
| RootfsExports.NextKeepsInv | cmd/runboxctl/cmd/images/exportrootfs.go:57-120 | a whole digest belongs to the directory or to a hash that has been left, and skips are sound |
| RootfsExports.SkipsSoundExactly | cmd/runboxctl/cmd/images/exportrootfs.go:62-68 | for one image, a skipped export always means a finished directory of the current hash, if and only if no hash returns once left, provided no forced run stops midway over its own digest |
| RootfsExports.UnfinishedSkip | cmd/runboxctl/cmd/images/exportrootfs.go:62-74 | for any moments that break the condition, the three runs that skip an unfinished directory |
| RootfsExports.StoppedOverOwnDigest | cmd/runboxctl/cmd/images/exportrootfs.go:62-74 | the proviso is needed: such a stop always makes the next plain run skip an unfinished directory |
| RootfsExports.FinishedExportIsSkipped | cmd/runboxctl/cmd/images/exportrootfs.go:62-68 | a finished export is not repeated while the hash stays |
| ExportPipelines.ExportsFreshExactly | cmd/runboxctl/cmd/images/exportrootfs.go:57-120 | over builds and exports in any order, stopped anywhere, skipped exports always hold an image of the current context if and only if every export that left its own hash found a tag built from the context it hashed |
| ExportPipelines.StepKeepsInv | cmd/runboxctl/cmd/images/exportrootfs.go:57-120 | what was exported under a hash still in force was of the context then, through every build and export |
| ExportPipelines.BuildFirst | cmd/runboxctl/cmd/images/exportrootfs.go:79-120 | an export right after a successful or skipped build at the same moment is fresh |
| ExportPipelines.OldImageStays | cmd/runboxctl/cmd/images/exportrootfs.go:57-120 | for any change of the hash: export before build, and every later export skips over the old image |

## Left out

- HTTP routing, JSON and YAML, logging, authentication, `/info`, `/readyz`, status mapping: plumbing.
- The Docker client, nsjail, cgroups and the operating system appear only as what they answer.
- Rounding of floating-point numbers: CPU shares are positive finite reals, and durations in seconds are exact.
- Which of two ready select cases is taken, and which blocked sender goes first: both choices are covered, fairness is not claimed.
- The main function's start and stop order and the reaper's ticker (cmd/runboxd/main.go:58-64 and 115-126): reaper passes start, overlap and are cancelled at any time in `DockerModel`.
- The limit of five goroutines in gen-lock: the schedules proved confluent include those it allows.
- Writing the registry and the lockfile as YAML and reading them back; the filtered gen-lock, which starts from an empty lockfile and so keeps nothing.
- Dockerfile templates, JSON of the run command, `ENV`, JVM flags and environment pairs; of the shell, everything beyond quoting is refused by the parser.
- Strings are sequences of bytes; trimming of white space is taken as done, and digests in hexadecimal have none.
- File modes, links, and anything outside the process that touches a workspace while it is staged.
- An image that a stopped `docker build` still tags later, and other editors of the output directories.
- Map iteration order is an argument (`order`) of the methods, or an arbitrary choice.
- `langtest`, configuration beyond the minimum pool size, formatting of error messages.
- PoolSafety.PoolInvariant: equality of the counter and the bound on admitted requests need the count to stay below 2^31 (`Fits`), since the source's counter has 32 bits.
- GenImages.GenImages: a Dockerfile that could be written only in part is not among the files.
- RootfsExports.SkipsSoundExactly: states which hash the export was made under; which image it came from is the subject of `ExportPipelines`. Images whose root file systems would lie in one directory are not modelled together.
