# Briev runtime and benchmark models

Dafny models of the parts of the Briev compiler repository that carry state or promise a format,
with proofs of what they keep.

* **The accelerator host runtime** (`src/accel_rt.rs`) keeps a program's arrays in device memory
  between kernel launches. Three memories hold copies of the same bytes: the host state, the staging
  mirror a driver maps for the host, and the working set in VRAM. `AccelRuntime` is the runtime as an
  object with byte arrays; `AccelModel` is the specification its methods are proved against; the other
  `Accel*` files prove that resident execution ends with the host state that full-copy launches would
  have left, and where it does not.
* **Two formats**: the WebSocket frame header of section 5.2 of RFC 6455 (`WsFrame`, `WsCorpus`) and
  UTF-8 as sections 3 and 4 of RFC 3629 define it (`Utf8`, `Utf8Table`).
* **Two protocols between threads**: the two-barrier worker loop (`Barriers`) and the
  single-producer single-consumer ring (`SpscRing`), each over every interleaving of atomic steps.
* **Data structures and algorithms** of the benchmarks: the open-addressing table (`HashTable`), the
  recommender (`Sparse`, `Predictor`, `TopFive`), the bit-parallel population count and the
  clear-lowest-bit loop (`Popcount`).
* **Text and settings**: module-config blocks over the IR-lowering settings (`Settings`, `Overlay`),
  tuning tables by target prefix (`TargetSettings`), and the splitters and line index of the IR
  checker (`IrParens`, `IrSplit`, `IrNesting`, `IrLines`).

Main results: `AccelRefinement.ResidentRefinesEager`, `AccelBatch.BatchMatchesSequential`,
`AccelPrime.PrimeIsInvisible`, `AccelAbi.TablesAlwaysCover`, `WsCorpus.CorpusDecodes`,
`WsFrame.EncodeAfterDecode`, `Utf8.AcceptsExactlyUtf8`, `Barriers.EveryRunEnds`,
`SpscRing.FirstInFirstOut`, `HashTable.StoreAtFirstStop`, `Sparse.Build`, `TopFive.Recommend`,
`Popcount.ParallelCount`, `Overlay.TwoBlocksAreOneIff`, `IrParens.ExtractParens`, `IrNesting.NestedSplit`.

## How the runtime theorem reads

A `Program` is what the compiler promises about its descriptors: fields in bounds, spans that coincide
on one side only when they coincide on the other, arrays apart from scalars, kernels that store to
declared fields only. A session is any list of launches, batches, host edits, downloads, pushed ranges and
CPU fallbacks. `Track` records, buffer by buffer, which projection bytes are current in VRAM, and which host
bytes are out of date; `Permitted` asks, of the bookkeeping alone, that every launch finds the bytes its
kernel reads current. A launch that creates its buffer finds the seed table's bytes and whatever the prime
packs and leaves in the mirror, scalars among them; a launch into an unseeded buffer that exists finds the
seed table's bytes; a later launch finds the current ones and the scalars. From a session in which nothing
is seeded, every permitted list of actions that leaves nothing out of date ends with exactly the host state
the same list leaves under full-copy launches, on one shared buffer or on a buffer for each of up to 32
kernels. `OneKernelRefinesEager` discharges the bookkeeping for launches and batches of one kernel with scalar
edits in between. `EagerRunIsLaunches` ties the eager run to the runtime's own full-copy entry point. On a driver
without resident operations the same sessions need no bookkeeping: `AccelPlain.PlainSessionIsEager`.

## Where the code and its comments part

The models follow the code.

* `briev_accel_invalidate_resident` announces that the next launch pushes all fields again
  (`src/accel_rt.rs:723-725`); the seed pushes the seed table only (lines 633-648).
  `AccelFallBack.FallBackRunsOnTheOldArray` is a session of two kernels in which the second reads what
  the first left on the device instead of what the CPU body stored; `AccelFallBack.FallBackIsRightIff`
  says for which kernels the launch after an invalidation is right whatever the host and the mirror hold.
* The prime's device work is said to be discarded because the seed rewrites every seed field (lines 864-870).
  On a driver that copies the result back into staging (`lib/runtime/briev_dev_vulkan.c:1165`), outputs
  outside the seed table stay in the mirror and the first launch runs on them:
  `AccelLimits.FirstLaunchCountsTwice` is a kernel that counts twice. `AccelLimits.FirstLaunchReachesHostIff`
  says for every kernel, driver and host when a first launch is right; `AccelLimits.FirstLaunchIsRight` is
  the condition on the kernel alone, and `AccelLimits.ScalarReaderIsPrimed` a kernel that needs the prime.
* `briev_accel_shutdown` frees the buffer but keeps the program's seed flag (lines 1207-1210). On a driver
  with a buffer for each kernel, or with the flag clear, every session after a restart refines the eager
  run as a first session does (`AccelRestart.RestartRefinesEager`). On a shared driver that inherits the
  flag the first launch applies the kernel to its own output (`AccelRestart.StaleFlagAppliesTwice`), which
  is right exactly when that changes nothing the kernel writes (`AccelRestart.StaleFlagIsRightIff`,
  `AccelRestart.RestartIsRightIff`), and then the rest of the session refines the eager run
  (`AccelRestart.SettledSessionRefinesEager`); `AccelRestart.RestartCountsTwice` shows a kernel for which it
  is wrong.
* Kernels 32 and up on a driver with a buffer for each kernel can never record their seed (lines 673, 940).
  The prime brings the outputs of their first launch to the host, except over seed bytes
  (`AccelLimits.FirstLaunchReachesHostIff`); no later launch reaches it
  (`AccelLimits.LaterLaunchReachesHostIff`, `AccelLimits.UnrecordableStaysBehind`);
  `AccelLimits.LateKernelNeverCounts` is an input.
* The batch promises the semantics of sequential launches (line 1010). A first batch of two or more leaves
  the same VRAM exactly when the seed table leaves the host's scalars in the mirror
  (`AccelBatch.UnseededBatchMatchesIff`); `AccelBatch.UnseededBatchHostsIff` says when the hosts agree, and
  `AccelBatch.FirstBatchUsesTheOldScalar` is an input on which they do not.
* The comments do not say what a failed launch leaves behind. A full-copy launch that fails unpacks its cleared
  output all the same (lines 763-787), so the host bytes the kernel writes are zero afterwards
  (`AccelFailures.FailedLaunchClears`). A first resident launch whose dispatch fails has recorded its seed
  (lines 938-942): `AccelFailures.RetryIsRightIff` says when launching again is right.
* `briev_accel_download` speaks of the full projection (line 1026); it pulls written fields only.
* `render_ir_lowering` is said to be the inverse image of the parser, with clamps that are idempotent
  (`src/config_tuning.rs:674-676`). It is so exactly for the values of `Settings.Survives`: a whole
  float prints without its point and reads as the wrong sort of number, an unsigned number of the top
  half is a parse error, and a 32-bit cast behind a lower bound can end below it.
  `Overlay.EmptyBlockChangesTheMargin`, `Overlay.EmptyBlockPanics` and `Overlay.TileRowsBecomeZero`
  are the inputs that show it. Two blocks in turn and one block of all their rows can differ in settings,
  in policy and in a panic; `Overlay.TwoBlocksAreOneIff` says exactly when they have the same outcome.
* The frame decoder stores a 64-bit length in an `int`: `WsFrame.LengthSurvivesIff`. The benchmark's checks let
  a frame pass that announces two to the 32 bytes too many: `WsCorpus.LongFrameSlipsThrough`.

## Model

| member | source | states |
|---|---|---|
| AccelLayout.GatherMeaning | src/accel_rt.rs:752-762 | After packing, every projection byte of a field is the host byte it stands for, and no other projection byte changed |
| AccelLayout.ScatterMeaning | src/accel_rt.rs:772-785 | After unpacking, every byte of a kernel-written field has arrived at its host place, and no other host byte changed |
| AccelLayout.ScatterKeeps | src/accel_rt.rs:772-785 | Unpacking never touches an unwritten host byte, whatever overlaps the table has |
| AccelLayout.SameOutputsIff | src/accel_rt.rs:772-785 | Hosts that agree outside the written fields become equal by unpacking exactly when the unpacked bytes of the written fields agree |
| AccelLayout.MaxEndIsLeastBound | src/accel_rt.rs:614-627 | The field-derived projection size is the least bound of the ends of all fields |
| AccelLayout.SyncList | src/accel_rt.rs:944-963 | The scalars a resident launch refreshes are scalars of the table, at most sixteen, and all of them when there are no more |
| AccelModel.Init | src/accel_rt.rs:389-414 | For any kernel set and any driver, init leaves tables that agree in length and reports success exactly when a device is available; with buffers of the kernels' sizes it leaves the whole session invariant |
| AccelInit.CompiledOrDead | src/accel_rt.rs:418-446 | Compiling leaves no driver exactly when one of the next calls, as many as there are kernels with an image, fails; else exactly the kernels with an image are live |
| AccelInit.InitSucceedsIff | src/accel_rt.rs:389-414 | Init reports success exactly when a device is selected and rejects no image; then exactly the kernels with an image are live, and after a rejection no driver is left |
| AccelInit.InitStartsAfresh | src/accel_rt.rs:389-414 | A successful init clears the kernels' seed flags, keeps the program's, and keeps a buffer only on a shared driver in use |
| AccelPrime.RestoreUndoes | src/accel_rt.rs:900-912 | Writing a snapshot back gives every covered byte its old value, even where spans overlap, and touches nothing else |
| AccelPrime.PrimeIsInvisible | src/accel_rt.rs:871-917 | Creating a lazy driver's buffer with a throw-away launch, successful or not, leaves every seed byte and every unwritten byte of the host as it was |
| AccelPrime.PrimedHost | src/accel_rt.rs:871-917 | After the prime the host is the full-copy launch's, with the seed table's bytes put back |
| AccelPrime.LaunchKeeps | src/accel_rt.rs:735-787 | A full-copy launch changes host bytes of written fields only, also when it fails |
| AccelCoherence.UploadMeaning | lib/runtime/briev_accel_rt.h:174-180 | A dispatch without full sync makes VRAM equal to staging on the dirty ranges and leaves the rest of VRAM |
| AccelCoherence.SyncMeaning | src/accel_rt.rs:944-965 | After the scalar sync and its upload, VRAM holds the host's value of every scalar of the kernel and is otherwise unchanged |
| AccelCoherence.SyncedVram | src/accel_rt.rs:944-965 | The scalar sync and its upload leave in VRAM what packing the scalars straight into it would |
| AccelCoherence.DispatchMatches | src/accel_rt.rs:836-847 | If VRAM agrees with the packed eager host state on what the kernel reads, the resident and the eager dispatch write the same bytes |
| AccelCoherence.DispatchKeepsCurrent | src/accel_rt.rs:836-847 | A dispatch keeps the current bytes current and makes the written ones current |
| AccelCoherence.SeedMakesCurrent | src/accel_rt.rs:633-648 | A launch into an unseeded buffer finds every byte of the seed table that is not out of date on the host current, whatever else the mirror holds |
| AccelCoherence.PrimeCopies | src/accel_rt.rs:735-771 | The prime leaves in the mirror the host byte of every byte of the kernel's own fields, or on a driver that copies results back of those the kernel does not write |
| AccelCoherence.PrimeMakesCurrent | src/accel_rt.rs:871-917 | A launch that creates its buffer finds these and the seed table's bytes current, unless they are out of date on the host |
| AccelCoherence.SyncMakesCurrent | src/accel_rt.rs:944-965 | The scalar sync makes the scalars current and keeps the arrays that were |
| AccelValues.SyncedLaunch | src/accel_rt.rs:806-856 | A launch into a seeded buffer uploads the scalars, runs, and leaves the host alone |
| AccelValues.SeedingLaunch | src/accel_rt.rs:806-856 | A launch into an unseeded buffer runs on the seeded mirror and brings the kernel's outputs to the host when its seed is recorded |
| AccelValues.SyncedBatch | src/accel_rt.rs:972-1008 | A batch into a seeded buffer uploads the scalars once, runs as often as asked, and leaves the host alone |
| AccelValues.SeedingBatch | src/accel_rt.rs:972-1008 | A batch into an unseeded buffer seeds once, runs as often as asked, and leaves the host alone |
| AccelValues.PrimeSucceeds | src/accel_rt.rs:871-917 | The prime leaves the output in VRAM, and the packed host or the output in the mirror |
| AccelValues.FirstLaunch | src/accel_rt.rs:822-856 | A launch without a buffer runs on what the prime left in the mirror with the seed table's bytes of the host put in, and unpacks over what the prime left on the host |
| AccelRefinement.RunStep | src/accel_rt.rs:806-856 | A permitted launch, into a seeded, unseeded or missing buffer, keeps every buffer and the host coherent with the eager host |
| AccelRefinement.BatchStep | src/accel_rt.rs:972-1024 | A permitted batch, on a driver that can batch or launch by launch, into a seeded, unseeded or missing buffer, keeps coherence with as many full-copy launches |
| AccelRefinement.EditStep | src/backend/llvm/emit_toplevel.rs:5649-5658 | A host edit of any field keeps coherence when every buffer loses the edited bytes |
| AccelRefinement.PullStep | src/accel_rt.rs:1030-1081 | A download keeps coherence and makes the pulled bytes as good on the host as they were in the buffer |
| AccelRefinement.AppendStep | src/accel_rt.rs:1110-1142 | Pushing ranges after the host edited them succeeds, keeps coherence, and makes the pushed bytes as good in the buffer as they are on the host |
| AccelRefinement.FallBackStep | src/accel_rt.rs:726-733 | Invalidating after a CPU body stored to the host keeps coherence, with no buffer counted as seeded |
| AccelRefinement.RunStaysCoherent | src/accel_rt.rs:806-856 | Every permitted session stays coherent at every step, and every launch, batch and push in it succeeds |
| AccelRefinement.OkMeansAll | src/accel_rt.rs:806-1142 | A run that reports success has had success from every launch, batch and push in it |
| AccelRefinement.ResidentRefinesEager | src/accel_rt.rs:735-856 | From a session in which nothing is seeded, on one shared buffer or a buffer for each of up to 32 kernels, any permitted mix of launches, batches, host edits, downloads, pushes and fallbacks that leaves nothing out of date ends with exactly the host state of full-copy launches |
| AccelRefinement.OneKernelRefinesEager | src/accel_rt.rs:735-856 | The same for launches and batches of one kernel with scalar edits in between and one download, with no bookkeeping left to the caller, if what the kernel writes depends on what its first launch finds current: without a buffer on its seeded and its unwritten bytes, scalars included |
| AccelRefinement.EagerPull | src/accel_rt.rs:1030-1081 | A final download means nothing to the full-copy runtime |
| AccelRefinement.EagerRunIsLaunches | src/accel_rt.rs:735-787 | The eager run of a session is, call by call, what full-copy launches through the runtime do, and each of them succeeds |
| AccelRefinement.ResidentRefinesLaunches | src/accel_rt.rs:735-856 | The refinement between the two entry points themselves: a permitted session ends with the host state its full-copy launches leave |
| AccelPlain.PlainLaunch | src/accel_rt.rs:817-821 | On a driver that lacks a resident operation, a resident launch of nx by ny items is a full-copy launch of nx * ny items and reports success |
| AccelPlain.PlainBatch | src/accel_rt.rs:972-985 | There a batch is as many full-copy launches |
| AccelPlain.PlainSessionIsEager | src/accel_rt.rs:806-1024 | There any session of launches, batches, edits, downloads, pushes and fallbacks leaves the host of full-copy launches, and all but the pushes report success |
| AccelBatch.SeededBatch | src/accel_rt.rs:972-1008 | On a seeded buffer one batch and as many single launches leave the same runtime, host and result |
| AccelBatch.BatchMatchesSequential | src/accel_rt.rs:972-1024 | From any state of the buffer, a batch and as many launches leave the same VRAM and, after a download, the same host; only two or more from an unseeded buffer need seeding to bring the scalars along |
| AccelBatch.UnseededBatchMatchesIff | src/accel_rt.rs:972-1024 | A first batch of two or more leaves the VRAM of single launches exactly when seeding leaves the host's scalars in the mirror |
| AccelBatch.UnseededBatchHostsIff | src/accel_rt.rs:972-1024 | The downloaded hosts agree exactly when running on the seeded scalars and on the host's makes the same written bytes |
| AccelBatch.FirstBatchUsesTheOldScalar | src/accel_rt.rs:972-1024 | A kernel that copies a scalar into an array, with arrays only in its seed table: a first batch of two leaves the mirror's old scalar in the array, two launches the host's |
| AccelLimits.FirstLaunchReachesHostIff | src/accel_rt.rs:822-856 | For every kernel, driver and host: a launch without a buffer and a download give the eager host exactly when, with a seed that can be recorded, the kernel writes on its first mirror what it writes on the packed host; without, when the eager launch leaves every seed byte as it was |
| AccelLimits.FirstLaunchIsRight | src/accel_rt.rs:822-856 | A recordable first launch is right for every host if what the kernel writes depends only on those of its own bytes that the seed table covers or that it does not write |
| AccelLimits.FirstLaunchOnPackedMirror | lib/runtime/briev_dev_cuda.c:486-494 | On a driver that keeps the packed mirror every kernel that reads only its own fields is right at its first launch |
| AccelLimits.FirstLaunchCountsTwice | lib/runtime/briev_dev_vulkan.c:1165 | With an in-out byte outside the seed table, on a driver that copies results back, the first launch counts twice |
| AccelLimits.ScalarReaderIsPrimed | src/backend/spirv/runner.rs:327-348 | The outputs of a kernel that reads a scalar depend on its primed inputs, and not on its seeded inputs alone |
| AccelLimits.FirstLaunchWithDisjointSeed | src/accel_rt.rs:629-648 | A kernel beyond the seed flags that writes no byte of the seed table is right at its first launch, whatever it reads |
| AccelLimits.LaterLaunchReachesHostIff | src/accel_rt.rs:669-675 | For every kernel, driver and host: a launch into a buffer that exists but is not seeded gives the eager host exactly when, with a seed that can be recorded, the kernel writes on the seeded old mirror what it writes on the packed host; without, when the launch would not change the host |
| AccelLimits.UnrecordableStaysBehind | src/accel_rt.rs:934-943 | Once it has a buffer, a kernel whose seed cannot be recorded never reaches the host again, however often it is launched, and every launch reports success |
| AccelLimits.LateKernelNeverCounts | src/accel_rt.rs:934-943 | The counting kernel at an index from 32 up with a buffer of its own: a launch and a download leave its byte, a full-copy launch counts |
| AccelRestart.RestartKeepsSeedFlag | src/accel_rt.rs:1193-1211 | After a restart the program's seed flag is the old one, no buffer is left, and exactly the kernels with an image are live |
| AccelRestart.RestartedSession | src/accel_rt.rs:1193-1211 | The restart is a session whose kernels count as seeded exactly on a shared driver that inherits the flag |
| AccelRestart.RestartRefinesEager | src/accel_rt.rs:1193-1211 | For every program, on a driver with a buffer for each kernel or with the flag clear, every permitted session after a restart ends with the eager host |
| AccelRestart.StaleFlagAppliesTwice | src/accel_rt.rs:822-856 | A launch that finds the flag set but no buffer, and a download, bring the kernel applied to its own output with the host's scalars put in |
| AccelRestart.StaleFlagIsRightIff | src/accel_rt.rs:822-856 | That is the eager host exactly when the second application leaves every written byte as the first made it, scalars included |
| AccelRestart.OutputHasScalars | src/accel_rt.rs:944-965 | In a program the kernel's output already holds the host's scalars, so syncing them changes nothing |
| AccelRestart.RestartIsRightIff | src/accel_rt.rs:1193-1211 | For every program, kernel and host: after a restart, one launch and a download are right exactly when, on a shared driver with the flag set, the kernel changes nothing on its own output, and otherwise exactly when a first launch is |
| AccelRestart.SettledSessionRefinesEager | src/accel_rt.rs:1193-1211 | On a shared driver that inherits the flag, a session whose first launch changes nothing on its own output and whose rest is permitted ends with the eager host |
| AccelRestart.RestartCountsTwice | src/accel_rt.rs:1193-1211 | The counting kernel after a restart is wrong for every start value exactly on a shared driver that inherits the flag |
| AccelFallBack.FallBackValue | src/accel_rt.rs:726-733 | The launch after an invalidation sees the seed table's bytes from the host and all others from the old mirror |
| AccelFallBack.FallBackIsRightIff | src/accel_rt.rs:726-733 | That launch is right for every host and every mirror exactly when what the kernel writes depends only on those of its bytes that the seed table covers |
| AccelFallBack.FallBackRunsOnTheOldArray | src/accel_rt.rs:723-733 | Two kernels, a download, an edit and an invalidation after which the second kernel reads the first one's old output |
| AccelAbi.TablesAlwaysCover | src/accel_rt.rs:389-446 | Over every sequence of calls, successful or not, with any kernel set at any init, an active driver means kernel and seed tables of the length of the kernel set, and a field-derived projection holds every field; the callers' contract speaks of buffer sizes and spans only |
| AccelAbi.BootCovers | src/accel_rt.rs:389-446 | The same from the start of the process |
| AccelAbi.CarefulIsEnough | src/accel_rt.rs:389-446 | If each init brings kernels that suit a live shared buffer, and spans fit, every call meets the contract and the session invariant holds at the end, whatever fails |
| AccelAbi.OneSizeFromBoot | lib/runtime/briev_dev_cuda.c:467-468 | Any calls from the start of the process whose inits all bring kernels of one projection size meet the contract: a condition on the calls alone |
| AccelAbi.DeadUntilShutdown | src/accel_rt.rs:389-414 | Once the chain is dead, every call before a shutdown, init included, reports failure and leaves the host alone |
| AccelAbi.InitDecides | src/accel_rt.rs:389-414 | Init leaves the chain dead exactly when it reports failure |
| AccelAbi.HostFootprint | src/accel_rt.rs:735-1142 | Whatever is called, inits with new kernel sets included, and whatever fails, host bytes outside the written fields of the kernels registered before or during the run never change |
| AccelFailures.NotLiveDoesNothing | src/accel_rt.rs:665-671 | For a kernel without a live handle, or without a device, every entry point reports failure and does nothing |
| AccelFailures.ShutdownStopsAll | src/accel_rt.rs:1193-1211 | After a shutdown that is every kernel |
| AccelFailures.NothingToDo | src/accel_rt.rs:982-984 | A batch of no launches, and a download from a buffer that is not seeded, missing or not mappable, report failure and do nothing |
| AccelFailures.FailedLaunchClears | src/accel_rt.rs:763-787 | A full-copy launch that fails reports it, and every host byte the kernel writes becomes zero |
| AccelFailures.FailedPrimeClears | src/accel_rt.rs:871-917 | A first launch whose prime fails reports it, puts the seed bytes back, and leaves the other written bytes zero, no buffer and no seed |
| AccelFailures.FailedDispatch | src/accel_rt.rs:833-856 | A dispatch that fails is reported and leaves host and VRAM alone, but a seed made for it stays recorded |
| AccelFailures.FailedBatch | src/accel_rt.rs:995-1008 | A batch whose dispatch fails reports it and leaves the host alone |
| AccelFailures.BatchStops | src/accel_rt.rs:1011-1024 | The sequential batch ends with the first failing launch, whose outcome is the batch's |
| AccelFailures.FailedDownloadIsSilent | src/accel_rt.rs:697-721 | A download that the driver fails or does not provide reports success and brings what the mirror held |
| AccelFailures.FailedPush | src/accel_rt.rs:1110-1142 | A push whose upload fails reports it, with the bytes in the mirror and not in VRAM |
| AccelFailures.RefusedPushDoesNothing | src/accel_rt.rs:650-663 | A push without its preconditions reports failure and does nothing |
| AccelFailures.RetryIsRightIff | src/accel_rt.rs:934-943 | After a first launch whose dispatch failed, a second launch and a download give the eager host exactly when the kernel writes on the old VRAM, with the host's scalars put in, what it writes on the packed host |
| AccelRuntime.Unpack | src/accel_rt.rs:772-785 | The unpack loop does exactly what `AccelLayout.ScatterMeaning` describes |
| AccelRuntime.PackFields | src/accel_rt.rs:752-762 | The pack loop and the seed loop do exactly what `AccelLayout.GatherMeaning` describes |
| AccelRuntime.ProjectionSize | src/accel_rt.rs:614-627 | The size loop finds the compiler's figure or the end of the last field |
| AccelRuntime.TakeSnapshot | src/accel_rt.rs:880-897 | The saved bytes are the seed spans back to back |
| AccelRuntime.PutBack | src/accel_rt.rs:900-912 | The restore loop writes the saved spans back in order |
| AccelRuntime.SyncLoop | src/accel_rt.rs:944-963 | The sync loop refreshes the first sixteen scalars in the mirror and lists exactly their ranges |
| AccelRuntime.Runtime.LaunchFull | src/accel_rt.rs:735-787 | The full-copy launch on arrays: runtime state, host bytes and result as specified, with the unpack also after a failure |
| AccelRuntime.Runtime.PrimeLazyBuffer | src/accel_rt.rs:871-917 | The prime on arrays: snapshot, launch, restore, and success only with a buffer |
| AccelRuntime.Runtime.SeedOrSyncScalars | src/accel_rt.rs:924-965 | Seeds and records the flag on a first launch, else refreshes scalars and names their ranges |
| AccelRuntime.Runtime.Pull | src/accel_rt.rs:680-721 | The download on arrays, with its early outs |
| AccelRuntime.Runtime.LaunchMapped | src/accel_rt.rs:833-855 | Sync, dispatch, and the pull after a first launch |
| AccelRuntime.Runtime.LaunchResident2d | src/accel_rt.rs:806-856 | The resident launch with its fallback and its lazy prime |
| AccelRuntime.Runtime.BatchOneByOne | src/accel_rt.rs:1011-1024 | The sequential fallback stops at the first failing launch |
| AccelRuntime.Runtime.LaunchResidentBatch | src/accel_rt.rs:972-1008 | The batched launch with its fallbacks and its single sync |
| AccelRuntime.Runtime.InvalidateResident | src/accel_rt.rs:726-733 | Clears every seed flag and nothing else |
| AccelRuntime.Runtime.Push | src/accel_rt.rs:1110-1142 | Copies the ranges into the mirror and uploads them; the mirror changes even when the upload fails |
| AccelRuntime.Runtime.Start | src/accel_rt.rs:389-414 | Init with and without an earlier one, tables reset before the kernels are compiled |
| AccelRuntime.Runtime.CompileAll | src/accel_rt.rs:418-446 | Compiles in table order, skips kernels without an image, and drops the driver at the first rejection |
| AccelRuntime.Runtime.Stop | src/accel_rt.rs:1193-1211 | Shutdown clears handles, flags and driver, and keeps the program's seed flag |
| Utf8.AcceptsExactlyUtf8 | benchmarks/utf8_ops_c.c:15-41 | The scan accepts exactly the concatenations of encodings of scalar values: nothing overlong, no surrogate, nothing above 0x10FFFF, nothing cut short |
| Utf8.EncodingIsUnique | benchmarks/utf8_ops_c.c:15-41 | Accepted bytes determine their scalar values |
| Utf8.EncodingsAccepted | benchmarks/utf8_ops_c.c:15-41 | Every encoded list of scalar values passes the scan |
| Utf8Table.TableIsUtf8 | benchmarks/utf8_ops_c.c:15-41 | The byte table of section 4 of RFC 3629, the encoding of section 3 and the scan agree on every byte string |
| Utf8.MasksAreRemainders | benchmarks/utf8_ops_c.c:29-33 | The scan's masks and shifts are the remainders and ranges the model uses |
| Utf8.Validate | benchmarks/utf8_ops_c.c:15-41 | The validator always ends and returns 1 exactly for a present buffer, a non-negative length and UTF-8 |
| WsFrame.ToBytesAt | benchmarks/ws_frame_c.c:126-136 | Each byte the encoder shifts out is the big-endian digit of the number |
| WsFrame.NumberRoundTrip | benchmarks/ws_frame_c.c:57-69 | The decoder's accumulation reads back the number the encoder wrote |
| WsFrame.BytesRoundTrip | benchmarks/ws_frame_c.c:57-69 | Writing the number that was read gives the bytes back |
| WsFrame.FixedByteBits | benchmarks/ws_frame_c.c:42-71 | The masks on the two fixed bytes are the quotients and remainders the model uses |
| WsFrame.DecodeAt | benchmarks/ws_frame_c.c:39-77 | The decoder on a buffer, with every early out, computes the specified result |
| WsFrame.DecodeAfterEncode | benchmarks/ws_frame_c.c:39-77 | An encoded header decodes to its own fields, wherever it lies and whatever surrounds it |
| WsFrame.LengthSurvivesIff | benchmarks/ws_frame_c.c:34-37 | The reported payload length is the encoded one exactly below two to the 31 |
| WsFrame.CutHeaderIsIncomplete | benchmarks/ws_frame_c.c:41-66 | A header cut anywhere is reported as incomplete, never misread |
| WsFrame.RefusedIff | benchmarks/ws_frame_c.c:49-61 | The decoder reports a protocol error exactly for a long length field whose number does not need it or has its sign bit set |
| WsFrame.StandardExamples | benchmarks/ws_frame_c.c:115-136 | The headers of the examples in section 5.7 of RFC 6455 come out byte by byte |
| WsFrame.EncodeAfterDecode | benchmarks/ws_frame_c.c:47-77 | Only minimal-length headers are accepted: encoding what was decoded gives the same bytes up to the reserved bits |
| WsFrame.AcceptedHeadersAreUnique | benchmarks/ws_frame_c.c:47-77 | Accepted headers with equal frame records and lengths below two to the 31 are equal bytes, up to the reserved bits |
| WsCorpus.CorpusPrefix | benchmarks/ws_frame_c.c:97-140 | Later frames never move or overwrite earlier ones |
| WsCorpus.FrameInCorpus | benchmarks/ws_frame_c.c:97-140 | Every frame's header lies complete at the prefix sum of the sizes before it |
| WsCorpus.CorpusDecodes | benchmarks/ws_frame_c.c:145-160 | Every frame of any corpus decodes to exactly the fields it was built from |
| WsCorpus.PayloadInCorpus | benchmarks/ws_frame_c.c:137-139 | Payload byte j of frame i in the built buffer is i + j modulo 256 |
| WsCorpus.Layout | benchmarks/ws_frame_c.c:97-107 | The offsets are the prefix sums of the frame sizes |
| WsCorpus.WriteHeader | benchmarks/ws_frame_c.c:115-136 | The header bytes are those of section 5.2 of RFC 6455, and no byte outside them changes |
| WsCorpus.WritePayload | benchmarks/ws_frame_c.c:137-139 | The payload pattern, and no byte outside it changes |
| WsCorpus.Build | benchmarks/ws_frame_c.c:97-140 | The two passes leave exactly the concatenation of all frames in the buffer |
| WsCorpus.Validate | benchmarks/ws_frame_c.c:145-171 | The loops count every failing frame once for each pass |
| WsCorpus.NoFailures | benchmarks/ws_frame_c.c:145-171 | No frame of a built corpus fails |
| WsCorpus.OnlyTheFramePasses | benchmarks/ws_frame_c.c:153-156 | Of the headers whose length an int can hold, only the frame's own passes its checks |
| WsCorpus.LongFrameSlipsThrough | benchmarks/ws_frame_c.c:153-156 | A header that announces two to the 32 bytes more passes too |
| WsCorpus.FailuresAreCounted | benchmarks/ws_frame_c.c:165-169 | The count is the number of frames that fail |
| WsCorpus.Benchmark | benchmarks/ws_frame_c.c:97-171 | On any corpus and any number of passes nothing is reported invalid |
| Barriers.StepKeepsInv | benchmarks/async_counters_sym_c.c:32-57 | Every atomic step of every thread keeps the relation between places, counters and barrier generations |
| Barriers.CountersAtTheTest | benchmarks/async_counters_sym_c.c:54 | In every interleaving both counters equal the completed rounds whenever main evaluates its test |
| Barriers.CountersAtTheEnd | benchmarks/async_counters_sym_c.c:54-63 | Main exits with both counters at the limit, or at zero for a negative one |
| Barriers.NeverStuck | benchmarks/async_counters_sym_c.c:32-57 | No reachable state before main's exit is a deadlock |
| Barriers.StepMakesProgress | benchmarks/async_counters_sym_c.c:32-57 | Every step moves the run forward in a bounded measure |
| Barriers.EveryRunEnds | benchmarks/async_counters_sym_c.c:32-64 | Every schedule is finite, and one that cannot be extended has seen main exit with the right counters |
| SpscRing.MaskIsRemainder | benchmarks/spsc_ring_c.c:18 | The index mask is the remainder by the capacity |
| SpscRing.NothingOverwritten | benchmarks/spsc_ring_c.c:16-21 | In every interleaving the slot about to be filled holds no unread value, and there is room for one more |
| SpscRing.NoRace | benchmarks/spsc_ring_c.c:16-28 | In every interleaving the producer never fills the slot the consumer is about to read |
| SpscRing.GivenUpOnlyWhenFull | benchmarks/spsc_ring_c.c:18-19 | In every interleaving a value is given up only when the ring held one less than its capacity as seen at the load |
| SpscRing.PushKeepsInv | benchmarks/spsc_ring_c.c:15-21 | Every producer step keeps the invariant between indices, slots and history |
| SpscRing.PopKeepsInv | benchmarks/spsc_ring_c.c:22-29 | Every consumer step keeps it |
| SpscRing.FirstInFirstOut | benchmarks/spsc_ring_c.c:14-31 | In every interleaving the popped values are a prefix of the pushed ones in order, and the ring never holds more than one less than its capacity |
| SpscRing.PublishedOrFull | benchmarks/spsc_ring_c.c:16-21 | In every interleaving each value the producer has been through was published, or given up when the ring held 1023 values as seen at the load, and none is both |
| SpscRing.EmptyOnlyWhenDrained | benchmarks/spsc_ring_c.c:22-25 | In every interleaving the consumer comes back empty-handed only when it has consumed all it saw published |
| SpscRing.EveryStepCounts | benchmarks/spsc_ring_c.c:14-31 | In every interleaving each side's steps are four for each value passed on and three for each attempt given up, up to the attempt it is in |
| SpscRing.TakingTurnsPassesAll | benchmarks/spsc_ring_c.c:13-33 | Pushing and popping in turn n times passes 0 to n - 1 in order, with the sum n(n-1)/2 |
| SpscRing.PushPopLoop | benchmarks/spsc_ring_c.c:13-33 | The loop as written passes every value, so the sum is n(n-1)/2 |
| HashTable.ProbeVisits | benchmarks/hash_ops_idio_c.c:26-29 | The first probes of a key visit every slot exactly once |
| HashTable.InsertStops | benchmarks/hash_ops_idio_c.c:26-29 | A table that holds the key or is not full stops the insert loop within one lap |
| HashTable.FirstStopIsTheKey | benchmarks/hash_ops_idio_c.c:26-36 | The first stop for a present key is that key's slot |
| HashTable.StoreAtFirstStop | benchmarks/hash_ops_idio_c.c:26-30 | Storing at the first stop keeps keys distinct and probe paths without gaps, and updates the map at the key alone |
| HashTable.FullCount | benchmarks/hash_ops_idio_c.c:16 | Full columns hold as many keys as slots |
| HashTable.Table.FindSlot | benchmarks/hash_ops_idio_c.c:22-29 | The insert's probe loop ends at the first free or matching slot |
| HashTable.Table.Insert | benchmarks/hash_ops_idio_c.c:22-30 | The table afterwards stands for the map with the key set |
| HashTable.Table.Get | benchmarks/hash_ops_idio_c.c:31-37 | The probe loop ends and returns the key's latest value |
| HashTable.InsertAndReadBack | benchmarks/hash_ops_idio_c.c:13-41 | The benchmark's sum is N(N-1), or zero for no iteration |
| Popcount.PairStage | benchmarks/popcount_derive_c.c:10 | The subtraction leaves the number of set bits of each pair and never borrows |
| Popcount.NibbleStage | benchmarks/popcount_derive_c.c:11 | The masked sum leaves the number of set bits of each group of four |
| Popcount.ByteStage | benchmarks/popcount_derive_c.c:12 | The masked sum leaves the number of set bits of each byte |
| Popcount.TopByteOfProduct | benchmarks/popcount_derive_c.c:13 | The top byte of the wrapping product is the sum of the eight bytes: no column overflows |
| Popcount.ByteCountsSum | benchmarks/popcount_derive_c.c:13 | The top byte of the product of the byte counts is the number of set bits of the word |
| Popcount.ParallelCount | benchmarks/popcount_derive_c.c:9-13 | For every 64-bit word the bit-parallel formula gives its number of set bits |
| Popcount.SumOfCounts | benchmarks/popcount_derive_c.c:6-14 | The benchmark's accumulator holds the sum of all counts modulo two to the 64 |
| Popcount.ClearsOneBit | benchmarks/bit_clear_c.c:14 | One turn makes the word smaller and removes exactly one set bit |
| Popcount.ClearAll | benchmarks/bit_clear_c.c:10-19 | From any non-negative word the loop ends at zero after one turn for each set bit |
| Popcount.OnesCount | benchmarks/bit_clear_c.c:11 | A word of n ones has n set bits, so the benchmark takes 63 turns |
| Sparse.RatersAreSorted | benchmarks/recommender_c.c:113-122 | The specified list holds exactly the users with a rating, in increasing order |
| Sparse.BlocksAreApart | benchmarks/recommender_c.c:105-112 | Blocks of different items never overlap |
| Sparse.Count | benchmarks/recommender_c.c:101-104 | The count pass leaves the number of raters of every item |
| Sparse.Prefix | benchmarks/recommender_c.c:105-112 | The prefix pass turns counts into running totals, for the block starts and for the cursors |
| Sparse.TotalsAreStarts | benchmarks/recommender_c.c:105-112 | The running totals of the counts are the block starts |
| Sparse.FillStep | benchmarks/recommender_c.c:116-121 | A rating written at its item's cursor extends that block, and every other block and cursor stays right |
| Sparse.Fill | benchmarks/recommender_c.c:113-122 | The row-by-row walk leaves every cursor past, and every block filled with, all of its item's ratings |
| Sparse.LayoutMeaning | benchmarks/recommender_c.c:100-122 | Between an item's two starts stand exactly the users with a nonzero rating, in increasing order, each with its rating |
| Sparse.FilledIsLayout | benchmarks/recommender_c.c:113-122 | Filled blocks are the layout, and every cursor ends at the next block's start |
| Sparse.Build | benchmarks/recommender_c.c:100-122 | Count, prefix and fill on any matrix whose ratings fit in the block arrays build the faithful layout |
| Predictor.Compensated | benchmarks/recommender_c.c:57-66 | Adding the first entry's terms and taking away the last one's sums over the list with its first entry repeated and its last dropped |
| Predictor.PredictionByCorrections | benchmarks/recommender_c.c:57-72 | The prediction is the source's formula over the sums of the item's other raters, corrections, guard against zero and clamp included |
| Predictor.OthersKeepOrder | benchmarks/recommender_c.c:46-56 | The other raters keep the order of the block |
| Predictor.ClampIsNearest | benchmarks/recommender_c.c:70-71 | The clamp gives the nearest rating from 0 to 5 |
| Predictor.PredictionIsBetween | benchmarks/recommender_c.c:67-72 | With non-negative similarities the prediction lies between the lowest and highest rating of the other users, and is one when they have no weight |
| Predictor.PredictItem | benchmarks/recommender_c.c:40-73 | The single pass over a block gives the weighted mean of the column's other raters, first counted twice and last not at all, clamped to 0 to 5 |
| TopFive.RankedIsSorted | benchmarks/recommender_c.c:128-139 | The specified ranking is a permutation of the candidates, by score downwards and then by item upwards |
| TopFive.TopIsBest | benchmarks/recommender_c.c:124-139 | A candidate is in one of the five slots, or all five hold better candidates |
| TopFive.InsertedIsTop | benchmarks/recommender_c.c:132-138 | Inserting a later item into the five best of some candidates gives the five best of one candidate more, sentinels included |
| TopFive.CandidatesAreUnrated | benchmarks/recommender_c.c:128-131 | The candidates are exactly the items without a rating of the query user, each with its own prediction, and their number is the number of such items |
| TopFive.Consider | benchmarks/recommender_c.c:132-138 | The chain of compare-and-swap steps is the insertion |
| TopFive.Recommend | benchmarks/recommender_c.c:100-139 | In terms of the matrix: no slot holds an item the query user rated, every unrated item is in a slot or beaten by all five, the slots are in order, and the number of predictions is that of the unrated items |
| Settings.RowMeaning | src/config_tuning.rs:950-1152 | For each of the fifty keys: what a number in its row becomes, nearest in range where the parser clamps, and the default for the wrong sort |
| Settings.OtherRows | src/config_tuning.rs:950-1152 | A row with a point is read by float keys only; a row that is no number, or has no field, gives every key its default |
| Settings.Defaults | src/config_tuning.rs:417-470 | The built-in default of every key has the field's type and survives its own row |
| Settings.ReadHasType | src/config_tuning.rs:950-1152 | Whatever the row, the value has the field's type |
| Settings.SurvivesIff | src/config_tuning.rs:677-763 | Rendering a value and reading it back is the identity exactly on the values in range, below the top half of 64 bits, and not whole floats |
| Settings.AwkwardIff | src/config_tuning.rs:950-1152 | The only rows whose value does not survive: negative for an unsigned 64-bit key, wrapped below a lower bound, or a float without a fractional part |
| Settings.ReadBackSurvives | src/config_tuning.rs:674-763 | A value once rendered and read back survives from then on |
| Settings.LastRendered | src/config_tuning.rs:677-763 | Every key that is not skipped has exactly its own value as its deciding row |
| Settings.RoundTripIff | src/config_tuning.rs:674-763 | Parsing the rendering gives the settings back exactly when every value survives |
| Settings.SecondPassChangesNothing | src/config_tuning.rs:674-676 | Parse after render is idempotent on any settings |
| Overlay.LastJoins | src/dbriev/config_db.rs:59-72 | In joined texts the later text's row decides |
| Overlay.AppliedIsRead | src/config_tuning.rs:819-828 | An acceptable block panics exactly when some unnamed key prints outside 64 signed bits; else every key is read from its one deciding row |
| Overlay.OnlyNamedKeysChange | src/config_tuning.rs:782-828 | Named keys get their last row's value; an unnamed key keeps its value exactly when that survives |
| Overlay.AppliedIsTyped | src/config_tuning.rs:782-828 | The new settings have the fields' types |
| Overlay.TwoBlocksAreOneIff | src/config_tuning.rs:782-828 | Two blocks in turn and one block of both have the same outcome, settings, policy and panic included, exactly when both panic over a key neither names, or the first does not panic, loses no value to the second, and has no policy the second drops |
| Overlay.RefusedBlocksIff | src/config_tuning.rs:782-828 | The same for blocks that are refused one by one: the joined block is refused too unless only a policy row was at fault and is overridden, and a panic of the first comes before the refusal of the second |
| Overlay.RefusedIff | src/config_tuning.rs:782-805 | A block is refused exactly when a number does not fit 64 signed bits, a row names nothing known, or the last policy row holds no policy word |
| Overlay.PolicyWords | src/config_tuning.rs:766-775 | The policy words and what each of them means; any other word refuses the block |
| Overlay.SecondBlockDropsThePolicy | src/config_tuning.rs:789-796 | A block that denies followed by a block without rows ends in allow; as one block they deny |
| Overlay.SecondBlockComesTooLate | src/config_tuning.rs:819-828 | With an unprintable clock in force, a block without rows panics before the next one could set the clock |
| Overlay.EmptyBlockChangesTheMargin | src/config_tuning.rs:706-707 | A margin of 2.0 falls back to 0.05 at the next block, even one without rows |
| Overlay.EmptyBlockPanics | src/config_tuning.rs:950-954 | A clock of -1 makes the next block end in the parser's panic |
| Overlay.TileRowsBecomeZero | src/config_tuning.rs:1023-1026 | Two to the 32 tile rows become zero although one is the least allowed |
| Overlay.ApplyModuleConfig | src/config_tuning.rs:782-828 | The key-by-key check refuses unknown keys and unknown policies, and otherwise gives the specified settings and policy |
| TargetSettings.TargetSettingsFor | src/config_tuning.rs:858-866 | The result is the entry of the longest prefix of the triple, or the fallback when none matches |
| TargetSettings.ChoiceIgnoresOrder | src/config_tuning.rs:858-866 | The order in which the map lists its entries does not matter |
| IrParens.RenderedIsBalanced | benchmarks/rbv_ir_check.py:19-30 | Everything the grammar of nested parentheses renders is balanced |
| IrParens.BalancedIsRendered | benchmarks/rbv_ir_check.py:19-30 | Everything balanced is rendered by the grammar |
| IrParens.GroupIsUnique | benchmarks/rbv_ir_check.py:19-30 | At most one group starts at a place, and the first return to depth zero ends it |
| IrParens.ExtractParens | benchmarks/rbv_ir_check.py:19-30 | Returns the inside and the end of the balanced group at the start, or all the rest of the text exactly when no group starts there |
| IrSplit.SplitTop | benchmarks/rbv_ir_check.py:32-49 | The parts, with the dropped blank tail if there is one, join with commas to the input; no part has a comma at level zero, and every part but the last closes its brackets |
| IrNesting.NestedSplit | benchmarks/rbv_ir_check.py:32-49 | On text properly nested in a grammar of round, angle and square groups, the splitter's parts are the grammar's: cut at every comma outside all groups and at none inside one, a blank last part dropped |
| IrNesting.BracketedIsOnePart | benchmarks/rbv_ir_check.py:38-41 | Text without brackets, put in any of the three pairs of brackets, is one part |
| IrNesting.BlankRestIsDropped | benchmarks/rbv_ir_check.py:47-48 | Spaces, tabs and line ends behind the last comma are dropped |
| IrSplit.TrimmedSplitIsUnique | benchmarks/rbv_ir_check.py:32-49 | A text has only one such list of parts |
| IrSplit.SplitIsUnique | benchmarks/rbv_ir_check.py:32-49 | Joining loses nothing: two lists of pieces cut at top commas that join to the same text are equal |
| IrLines.StartsUpTo | benchmarks/rbv_ir_check.py:152-155 | A line starts at or before a position exactly when it is one of those the newlines before the position begin |
| IrLines.LineStarts | benchmarks/rbv_ir_check.py:152-155 | The index holds zero and the place behind every newline |
| IrLines.LineNo | benchmarks/rbv_ir_check.py:156-164 | The binary search gives one more than the number of newlines before the position |

## Left out

- AccelRuntime.Runtime.Pull: arrays that live in device images are not pulled.
- AccelAbi.TablesAlwaysCover: a call that moves bytes is taken only on buffers of its kernel's size; a kernel set of another size on a live shared buffer is against the driver's contract (`lib/runtime/briev_dev_cuda.c:467-468`), and what such a call would do to memory is not modelled. The tables are covered before and after it.
- Device drivers: a driver is its contract, a table of operations over buffers. Loading, probing, timing, images, device names, environment variables and printing are not modelled.
- Drivers with unified memory, where staging and VRAM are one buffer, and drivers for which `mapped` stays null after a full launch.
- A failed driver call changes no buffer and returns a zero output buffer in the model; the runtime ignores a failed download in both.
- Aliasing between the host state, the mirror and VRAM: the host state is an array changed in place, the driver's two copies are byte sequences inside the driver value.
- Unsigned overflow of offsets, of `count * elem_bytes` and of `nx * ny`; the check that an image blob suits the driver; block size and shared-memory overrides.
- `briev_accel_push_strided`: a pitched form of the pushed ranges that would add no new state.
- The auto-tuning probe, which runs both lanes on copies and compares outputs within a tolerance.
- Sessions with kernels from 32 up on a driver with a buffer for each kernel: their seed cannot be recorded, and `AccelLimits` says what their launches do one by one.
- AccelRefinement.ResidentRefinesEager: at most sixteen scalars for each kernel, none of them kernel-written, because later scalars are not synced and the host owns scalars.
- AccelRuntime.Runtime.Start: driver selection and driver init come in as a parameter.
- Memory ordering weaker than sequential consistency: acquire and release accesses of the ring and the barrier operations are single atomic steps.
- The progress lines the benchmarks print, process exit, and the environment variable that bounds them.
- The payload checksum of the frame benchmark, which reads payloads through the mask that were stored without it.
- Generated inputs: the linear congruential generators of the benchmarks are parameters, so the results hold for every matrix, every similarity row and every corpus.
- Floating-point rounding: predictions and float settings are exact reals; not-a-number, infinities and negative zero do not occur.
- Predictor.PredictItem: exact arithmetic instead of `float`.
- HashTable.Table.Get: only for keys in the table; for an absent key in a table without a free slot the loop of the source does not end.
- The text layer of the config grammar: a text is the list of its rows, each with a key and the first field as the value parser reads it. Keys are identified with their place in the key table, so case folding of keys in configuration files is not modelled; in a block any spelling but the table's own is refused.
- Overlay.ApplyModuleConfig: the wording of refusals and the list of applied keys are not modelled, and rows are checked in text order.
- The remaining settings code: axiom and contract-gate policies, installing settings in global state, reading configuration directories.
- The IR checker's regular expressions, its comparison of types, and its report.
- The tables, messages, caches, package and process plumbing of the compiler driver, which hold no protocol to prove.
