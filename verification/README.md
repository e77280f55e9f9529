# librga in Dafny

librga is the userspace driver of the Rockchip RGA 2D engine. This project models the parts of it
whose correctness does not show on the page: what many threads may do to shared state, what an
engine that works in any order leaves in an image, and what its integer arithmetic amounts to.

| file | models |
|---|---|
| `Context.dfy`, `ContextGlobals.dfy` | the one shared device context: open, use, close, and the drain before teardown |
| `Jobs.dfy`, `JobTable.dfy`, `JobList.dfy` | the im2d job manager, and the linked list that replaces `std::map` in C builds |
| `Raster.dfy`, `Border.dfy`, `Rectangles.dfy` | images, jobs and fences; borders made from rectangles; frames and array calls |
| `Windows.dfy` | rectangle admission, rotated destination windows and the legacy conversion |
| `Session.dfy`, `SyncMerge.dfy` | double-checked session setup; the cached choice of sync interface |
| `Stride.dfy`, `Versions.dfy`, `ColorSpace.dfy`, `Gaussian.dfy` | stride alignment, version tables, colour matrices, blur kernels |
| `Common.dfy` | `Option` and shared facts about products |

`dafny verify dfyconfig.toml` checks everything.

## How the model is built

Concurrent code is a state machine whose steps are the stretches between taking and releasing a
lock, or between two calls into the kernel. A run is any finite sequence of enabled steps by any
number of threads; liveness is stated over infinite behaviours. Where the source updates fields in
place, a class has the same fields and methods, and each method is proved to have exactly the effect
the machine takes as one step (`ContextGlobals`, `JobTable`, `Session.Global`, `SyncMerge.Cache`,
`Windows.Request`, `ColorSpace.Request`). The job list relinks real heap nodes.

An image is a function of coordinates. The engine performs the pixel writes of a job in any order,
reading the destination as it is at that moment; jobs are ordered only by their fences.

What the kernel and the allocator answer is a parameter, and every theorem holds for all answers
within the premises below. Reals stand for `float` and `double`.

## Premises

- The allocator and the kernel hand out addresses and descriptors that are not in use. They may be
  handed out again later, so contexts and job blocks carry generation numbers.
- `open` returns a positive descriptor (session setup only; `ZeroDescriptorIsNotRecognised` and
  `ZeroDescriptorLeaks` say what happens with 0).
- The library is unloaded only while no thread is inside `get_rga_session`.
- A kernel has exactly one of the two sync interfaces and fails the other with ENOTTY.
- Source and destination of a border are distinct; a reflected or wrapped border is no wider than
  the source; strides fit the 16-bit request fields.
- The driver names requests with positive ids.
- A successful fence merge yields a fence for both sides.

## What the source does not do

Some properties one would expect are false of the code. The model keeps the code and states exactly
when the property holds.

- `immakeBorder` reports success without drawing a border when an asynchronous step returns no
  positive fence, and an unknown border type returns the status of the cancel. `MakeBorder` states
  the exact condition (`Completes`); `UnfencedExample` and `UnknownTypeExample` are inputs.
- `immakeBorder` refuses a border one pixel wide, and a reflected or wrapped one on the left or the
  right alone (`NarrowBorderRefused`).
- An empty fill rectangle asks for a window of the image's size, moved by its offset. It is admitted,
  and reaches past the image unless the strides leave room (`FillContainedIff`,
  `FillEscapesExample`).
- `imrectangle` refuses thickness 1 and frames with fewer than two rows between their bars;
  thickness 0 it refuses unless the rectangle is empty, and then it fills four windows of the
  image's size (`FrameAcceptedIff`, `EmptyFrameExample`). A frame thicker than it is wide paints
  outside its rectangle (`FramePaintedExactly`), and the four fills overlap unless both vertical bars
  fit side by side (`FrameDisjointIff`); `ThickFrameExample` does both.
- `imrectangleTaskArray` does not do what `imrectangleArray` does once a job is full: it succeeds
  exactly when the fills fit the 256 tasks a job takes and each is admitted and answered
  (`QueuedIff`, `DirectAndQueued`). `SixtyFiveFrames` is refused at fill 257 where the direct call
  paints 260.
- A refused create, whether its handle is known or there is no memory, cancels that handle on its way
  out, and whichever job has it by then is freed and never submitted (`RefusedCreateLosesJob`). A
  cancel is of this kind exactly when the thread's last own step was such a create
  (`LostToCreateIff`), so creates that all succeed lose nothing (`GrantedCreatesLoseNothing`).
  `ClashExample` and `UngrantedExample` are runs of the two kinds.
- The lower scale limits of `generate_blit_req` are integer quotients and so 0: only reduction is
  limited there (`ScaleAcceptedIff`, `EnlargingIsUnlimited`). Enlarging is limited by
  `rga_check_limit` alone, after which the other check refuses exactly some quarter turns packed
  with a flip, whose axes it does not swap (`LimitImpliesScale`, `PackedTurnExample`).
- A caller's Gaussian matrix is converted unchecked: its coefficients fit 0..255 exactly when its
  scaled values lie above -1.5 and below 255.5 (`CoefficientFitsIff`); exactly from there to the end
  of uint32_t they are too large without any undefined conversion (`CoefficientOverflowsIff`,
  `LargeMatrixExample`).
- A legacy driver reports no version and is judged by the version an earlier failed attempt left in
  the session (`LegacyFeatureIsStale`, `StaleVersionExample`).
- Session setup accepts descriptor 0 and then does not recognise it.
- `RgaInit` dereferences its context outside the mutex. That is safe while clients return
  only references they were handed (`ClientsHoldLiveContext`), and only then: the first close outside
  that bargain can be continued so that every `RgaInit` in flight holds a freed block
  (`UnmatchedCloseCanFree`). `UnmatchedCloseFreesUnderInit` is such a run, of two steps.
- The colour coefficients are truncated after adding one half, which rounds negative ones up
  (`QuantizeError`, `MisroundedExample`). The delivered colour is nevertheless within three quarters of a code value of
  the standard's (`ClippedConforms`).
- The kernel loops leave their buffer for even sizes (`InBoundsIffOdd`, `PointsFitIffOdd`,
  `EvenSizeExample`); only 3 x 3 reaches them.
- `rga_check_driver` can refuse nothing with the shipped table (`ShippedTables`), so its error
  branches in `RgaInit` and in session setup are dead.

## Model

| member | source | states |
|---|---|---|
| `DeviceContext.InvStep` | core/NormalRga.cpp:48-274 | every critical section of every thread keeps the invariant: one block and one descriptor exactly while a context is published, `refCount` = opens - closes >= 0, `active_operations` = number of operating threads, all operators and closers hold the published context, at most one closer, no sleeper without a reason |
| `DeviceContext.RunKeepsInv` | core/NormalRga.cpp:48-274 | so it holds in every state of every run of any number of threads, spurious wakeups included |
| `DeviceContext.UseBeginOutcome` | core/NormalRga.cpp:50-56 | an operation is admitted, given the published context and counted exactly when one is published and not closing, however many already run; otherwise nothing happens |
| `DeviceContext.UseEndOutcome` | core/NormalRga.cpp:57-64 | the end of an operation lowers the count, and wakes every sleeper exactly if it was the last |
| `DeviceContext.OpenOutcome` | core/NormalRga.cpp:106-196 | when an open waits, shares, publishes or fails, in terms of the globals and the kernel's answers, with the whole new state |
| `DeviceContext.CloseOutcome` | core/NormalRga.cpp:198-251 | when a close is ignored, drops a reference, waits or tears down, in terms of handle, references and operations |
| `DeviceContext.ContextPinned` | core/NormalRga.cpp:198-251 | while an operation is active no step of any thread replaces, frees or unpublishes the context |
| `DeviceContext.OperatingPersists` | core/NormalRga.cpp:48-70 | no other thread's step ends an operation or changes the context it holds |
| `DeviceContext.OperationHoldsLiveContext` | core/NormalRga.cpp:48-70 | from its constructor to its destructor an operation holds the published, allocated, open context it started with, so its later unlocked reads of the global hit that block |
| `DeviceContext.TeardownOnlyWhenIdle` | core/NormalRga.cpp:229-251 | blocks are freed and descriptors closed only with no reference and no active operation, and then nothing is left |
| `DeviceContext.NoLostWakeup` | core/NormalRga.cpp:57-118 | a sleeping closer has an operation to wake it, a sleeping opener has a closer, and two closers are the same thread |
| `DeviceContext.DrainNeverGrows` | core/NormalRga.cpp:236-249 | while closing, `active_operations` changes only by falling with each end of an operation |
| `DeviceContext.DrainRound` | core/NormalRga.cpp:236-249 | under a fair scheduler the drain ends or the number of active operations falls |
| `DeviceContext.CloseCompletes` | core/NormalRga.cpp:236-250 | in every fair behaviour every started teardown completes, even if openers and clients are starved |
| `DeviceContext.MatchedRunKeepsReferences` | core/NormalRga.cpp:183-268 | if clients return only references they were handed, `refCount` is the number of references held by clients and by `RgaInit` calls in flight, and each names the current context |
| `DeviceContext.ClientsHoldLiveContext` | core/NormalRga.cpp:253-268 | then every such reference, including the one `RgaInit` dereferences unlocked, is the live context |
| `DeviceContext.UnmatchedCloseCanFree` | core/NormalRga.cpp:198-268 | the bargain is necessary: an effective close outside it finds no client reference left, only `RgaInit` calls in flight, and has a continuation after which each of them holds a freed block |
| `DeviceContext.UnmatchedCloseFreesUnderInit` | core/NormalRga.cpp:253-268 | without that bargain there is a run in which `RgaInit` holds a freed block |
| `ContextGlobals.Globals.OpenLocked` | core/NormalRga.cpp:119-196 | the open section in place: on every failure exit the whole state is as before, otherwise one reference more and at most one new context |
| `ContextGlobals.Globals.CloseLocked` | core/NormalRga.cpp:198-251 | which closes are ignored, which drop a reference, which wait and which tear down, with the whole new state and return code |
| `ContextGlobals.Globals.CloseDrained` | core/NormalRga.cpp:237-247 | one pass of the wait loop waits exactly while operations are active, else unpublishes, closes and frees |
| `ContextGlobals.Globals.UseBegin` | core/NormalRga.cpp:50-56 | an operation is admitted exactly when a context is published and not closing |
| `ContextGlobals.Globals.UseEnd` | core/NormalRga.cpp:57-64 | only the end of the last operation broadcasts |
| `ContextGlobals.Globals.Init` | core/NormalRga.cpp:253-268 | a reference is added exactly when the result is >= 0, for every driver version |
| `Jobs.InvStep` | im2d_api/src/im2d_impl.cpp:2381-2576 | every critical section and driver call of every thread keeps the invariant: map, counter, blocks and owners agree, no freed block is touched, no request is written out of bounds |
| `Jobs.RunKeepsInv` | im2d_api/src/im2d_impl.cpp:2381-2576 | so in every reachable state there was no fault and `job_count` is the size of the map, including after create's error path |
| `Jobs.CreateOutcome` | im2d_api/src/im2d_impl.cpp:2398-2429 | a create makes an empty job exactly for a free handle with memory granted, and else goes on to cancel with nothing changed |
| `Jobs.AppendOutcome` | im2d_api/src/im2d_impl.cpp:2300-2322 | an append to a job in the map goes to the end of its requests while they are fewer than 256 and touches no other job; any other append changes nothing |
| `Jobs.AppendedIff` | im2d_api/src/im2d_impl.cpp:2311-2320 | a job in the map takes a request if and only if it holds fewer than 256, and keeps what it has if and only if not |
| `Jobs.TakeOutcome` | im2d_api/src/im2d_impl.cpp:2484-2497 | a submit takes the job its handle names out of the map, still allocated, and nothing if there is none |
| `Jobs.CancelOutcome` | im2d_api/src/im2d_impl.cpp:2441-2450 | a cancel removes and frees the job its handle names, and nothing if there is none |
| `Jobs.DriverOutcome` | im2d_api/src/im2d_impl.cpp:2499-2563 | submit and config each give the driver exactly the requests appended to the job, in order, their number and its handle |
| `Jobs.ConfigOutcome` | im2d_api/src/im2d_impl.cpp:2546-2559 | config finds the job its handle names and holds the mutex |
| `Jobs.EndOutcome` | im2d_api/src/im2d_impl.cpp:2516-2564 | a submit ends by freeing its job, a config by giving the mutex back |
| `Jobs.FaultsAreSeen` | im2d_api/src/im2d_impl.cpp:2433-2564 | touching or freeing a block that is not allocated is a fault, which the invariant rules out |
| `Jobs.FrozenAfterRemoval` | im2d_api/src/im2d_impl.cpp:2484-2497 | once a job is out of the map no append reaches it again |
| `Jobs.SubmitDelivers` | im2d_api/src/im2d_impl.cpp:2460-2520 | submit takes effect at removal: the driver gets exactly the requests appended before it, in lock order, their number (at most 256) and the handle |
| `Jobs.SubmittedExactlyOnce` | im2d_api/src/im2d_impl.cpp:2460-2520 | the driver is called for a job at most once; by the time its block is freed, exactly once if a submit took it and never if it was cancelled |
| `Jobs.ConfigBorrows` | im2d_api/src/im2d_impl.cpp:2546-2564 | while the driver copies a job for config no other thread's step changes or frees it, and it reads exactly the appended requests |
| `Jobs.OneOwner` | im2d_api/src/im2d_impl.cpp:2433-2520 | in every run each block is owned by the map or by exactly one submitting thread, never both |
| `Jobs.NothingLeaks` | im2d_api/src/im2d_impl.cpp:2433-2520 | once the map is empty and no submit is under way, every block ever created was removed and freed exactly once |
| `Jobs.CancelledIsLost` | im2d_api/src/im2d_impl.cpp:2441-2450 | a cancelled job is freed there and then and never submitted, however the run goes on |
| `Jobs.RefusedCreateLosesJob` | im2d_api/src/im2d_impl.cpp:2398-2429 | a create refused for a known handle or for want of memory can only go on to cancel the handle, and the job it names by then is freed and never submitted |
| `Jobs.LostToCreateIff` | im2d_api/src/im2d_impl.cpp:2398-2458 | a cancel removes a job on the way out of a create if and only if the thread's last own step was a create refused for that handle; otherwise it is a client's own |
| `Jobs.GrantedCreatesLoseNothing` | im2d_api/src/im2d_impl.cpp:2398-2429 | a run whose creates are all granted a free handle and memory loses no job to a create |
| `Jobs.ClashExample` | im2d_api/src/im2d_impl.cpp:2400-2406 | a run that loses a job with a request in it to a create of its handle |
| `Jobs.UngrantedExample` | im2d_api/src/im2d_impl.cpp:2408-2413 | a run that loses one to an earlier create that got no memory, the handle being free at the time |
| `JobTable.Table.CreateJob` | im2d_api/src/im2d_impl.cpp:2398-2427 | the create section in place, refusing a known handle and a failed allocation without any change |
| `JobTable.Table.AppendTask` | im2d_api/src/im2d_impl.cpp:2300-2322 | the append section in place; refused exactly for an unknown handle or a full job |
| `JobTable.Table.TakeJob` | im2d_api/src/im2d_impl.cpp:2484-2497 | removal: the block leaves the map, stays allocated, and the counter follows |
| `JobTable.Table.CancelJob` | im2d_api/src/im2d_impl.cpp:2441-2450 | cancel frees and counts down only a job that was there |
| `JobTable.Table.Request` | im2d_api/src/im2d_impl.cpp:2499-2501 | the request handed to the driver is the first `task_count` entries of the block, 0..256 of them, with count and id |
| `JobList.SkippedIsUnlinked` | im2d_api/src/im2d_job.cpp:76-91 | neighbours that skip a node form the well-linked list without it |
| `JobList.NamesAreDistinct` | im2d_api/src/im2d_job.cpp:126-138 | no two nodes of a valid list share a key |
| `JobList.NamedAppend` | im2d_api/src/im2d_job.cpp:126-138 | appending a node with a new key extends the map the list stands for |
| `JobList.NamedWithout` | im2d_api/src/im2d_job.cpp:146-150 | dropping a node removes exactly its key from the map |
| `JobList.List.InsertTail` | im2d_api/src/im2d_job.cpp:57-74 | head, tail, prev and next describe the old list followed by the new node |
| `JobList.List.Delete` | im2d_api/src/im2d_job.cpp:76-91 | and the old list without the deleted node |
| `JobList.List.Find` | im2d_api/src/im2d_job.cpp:93-103 | finds a node with the key, or NULL exactly if there is none; terminates |
| `JobList.List.Destroy` | im2d_api/src/im2d_job.cpp:105-108 | ends with the empty list, the length being its measure |
| `JobList.List.InsertJob` | im2d_api/src/im2d_job.cpp:116-140 | refines map insertion that keeps an existing binding |
| `JobList.List.DeleteJob` | im2d_api/src/im2d_job.cpp:142-152 | refines map removal |
| `JobList.List.FindJob` | im2d_api/src/im2d_job.cpp:154-170 | refines map lookup |
| `JobList.List.Perform` | im2d_api/src/im2d_job.cpp:105-170 | any one operation acts and answers as on a finite map, relinking only old and new nodes |
| `JobList.List.Execute` | im2d_api/src/im2d_job.cpp:57-170 | any sequence of inserts, removals, lookups and destroys answers as a finite map does and leaves the list standing for the map they leave |
| `Raster.AnyScheduleSameImage` | im2d_api/src/im2d.cpp:1603-1640 | if no task of a job reads what another writes and overlapping tasks agree, every order and interleaving of its pixel writes gives the same image |
| `Raster.FencedRun` | im2d_api/src/im2d.cpp:1618-1650 | every schedule the fences of a chain of such jobs allow gives the image of doing them one after the other |
| `Border.PlanIsIndependent` | im2d_api/src/im2d.cpp:1549-1640 | no job of a border disturbs itself: in particular neither in-place side pass reads a column either of them writes |
| `Border.AfterEdges` | im2d_api/src/im2d.cpp:1574-1616 | after copy and edges the middle columns are the declared continuation and nothing else changed |
| `Border.AfterSides` | im2d_api/src/im2d.cpp:1630-1640 | the in-place side passes complete the picture, corners included |
| `Border.AfterFills` | im2d_api/src/im2d.cpp:1549-1572 | the constant fills complete the picture |
| `Border.BorderIsExtension` | im2d_api/src/im2d.cpp:1521-1656 | for every schedule the fences allow, every destination pixel is the REFLECT, WRAP or CONSTANT continuation of the source and nothing outside the canvas changes |
| `Border.CopyAloneHasNoBorder` | im2d_api/src/im2d.cpp:1521-1523 | the early exit leaves every border pixel untouched |
| `Border.CopyTakenIff` | im2d_api/src/im2d.cpp:1521-1523 | which sources and destinations the copy admits, both directions |
| `Border.FillsTakenIff` | im2d_api/src/im2d.cpp:1549-1572 | the fills are queued if and only if every side is absent or at least two pixels wide and all fit strides and limits |
| `Border.EdgesTakenIff` | im2d_api/src/im2d.cpp:1603-1616 | the same for the edges, read from the source under its own limit |
| `Border.SidesTakenIff` | im2d_api/src/im2d.cpp:1630-1640 | the side passes are queued if and only if both sides are absent or both at least two pixels wide and inside the destination |
| `Border.FillRefusal` | im2d_api/src/im2d_impl.cpp:1307-1350 | a queued fill has the code of the first of its checks that refuses |
| `Border.BlitRefusal` | im2d_api/src/im2d_impl.cpp:1307-1356 | a queued blit too, the source being checked before the target |
| `Border.FillsRefusal` | im2d_api/src/im2d.cpp:1549-1572 | the sides of a constant border are tried top, bottom, left, right, and the first refusal is the status |
| `Border.PassesRefusal` | im2d_api/src/im2d.cpp:1603-1640 | edges are tried top first, sides left first, and the first refusal is the status |
| `Border.SuccessNeedsEveryAnswer` | im2d_api/src/im2d.cpp:1521-1656 | a border drawn with SUCCESS had a success from every check, fence, imbeginJob, imendJob and imsync it depends on |
| `Border.EveryAnswerSuffices` | im2d_api/src/im2d.cpp:1521-1656 | and those, with arguments that fit, make a success |
| `Border.NarrowBorderRefused` | im2d_api/src/im2d.cpp:1540-1641 | no border with a side of one pixel or less than none, and no reflected or wrapped one on a single side, succeeds |
| `Border.QueueFills` | im2d_api/src/im2d.cpp:1549-1572 | the status is that of the first refusal; success means exactly the four fills were queued, with no negative border |
| `Border.QueueEdges` | im2d_api/src/im2d.cpp:1603-1616 | the status is that of the first refusal; success means exactly the edge tasks were queued, with no negative border |
| `Border.QueueSides` | im2d_api/src/im2d.cpp:1630-1640 | the status is that of the first refusal; success means both side tasks, or none, and both borders positive or both zero |
| `Border.DrawBorder` | im2d_api/src/im2d.cpp:1536-1656 | which jobs follow the copy, the status of the first step that fails, and SUCCESS if and only if `Drawn` |
| `Border.MakeBorder` | im2d_api/src/im2d.cpp:1498-1656 | SUCCESS if and only if `Succeeds`; then the border's jobs were issued if and only if `Completes`, with matching sizes and no negative border; whatever the status, the jobs issued are a prefix of the border's; the status is the first answer that is not a success, in the order of the steps; a job is issued only if its own imendJob took it; a copy without a fence still succeeds |
| `Border.UnfencedExample` | im2d_api/src/im2d.cpp:1521-1523 | an input for which SUCCESS comes without a border |
| `Border.UnknownTypeExample` | im2d_api/src/im2d.cpp:1598-1600 | an unknown border type, for which SUCCESS is the cancel's |
| `Rectangles.FrameAcceptedIff` | im2d_api/src/im2d.cpp:1434-1449 | which frames are admitted, both directions, for every thickness that is not negative |
| `Rectangles.FramePaintedExactly` | im2d_api/src/im2d.cpp:1434-1449 | an admitted frame paints exactly the frame of its rectangle if and only if it has a thickness and is no thicker than wide |
| `Rectangles.FrameDisjointIff` | im2d_api/src/im2d.cpp:1434-1449 | its four fills are pairwise disjoint if and only if it has a thickness and twice that fits the width |
| `Rectangles.ThickFrameExample` | im2d_api/src/im2d.cpp:1434-1449 | an admitted frame that paints outside its rectangle and whose bars overlap |
| `Rectangles.EmptyFrameExample` | im2d_api/src/im2d.cpp:1434-1449 | an admitted frame of thickness 0, which paints the whole image |
| `Rectangles.FenceForCovers` | core/rga_sync.h:25-40 | the merged fence covers exactly the fenced fills, and there is none if no fill is fenced |
| `Rectangles.SolidFills` | im2d_api/src/im2d.cpp:1435-1436 | a negative thickness fills the rectangles themselves, in order |
| `Rectangles.BarFills` | im2d_api/src/im2d.cpp:1438-1446 | any other gives each rectangle its top, bottom, left and right bar, in order |
| `Rectangles.FillTakenIff` | im2d_api/src/im2d_impl.cpp:1882-2354 | a fill succeeds if and only if every check, the place for the fence and the driver let it |
| `Rectangles.FillRefusal` | im2d_api/src/im2d_impl.cpp:1882-2354 | and else has the code of the first that does not |
| `Rectangles.TaskTakenIff` | im2d_api/src/im2d_impl.cpp:1882-2322 | a queued fill succeeds if and only if it is admitted and answered and fewer than 256 are queued |
| `Rectangles.TaskRefusal` | im2d_api/src/im2d_impl.cpp:1882-2322 | and else has the code of the first that does not |
| `Rectangles.IssuedIff` | im2d_api/src/im2d.cpp:1410-1472 | a direct array call succeeds if and only if every fill is admitted and taken |
| `Rectangles.FillArray` | im2d_api/src/im2d.cpp:1410-1432 | issues the rectangles in order up to the first refusal and reports it; on success the fence covers exactly the fenced fills |
| `Rectangles.Rectangle` | im2d_api/src/im2d.cpp:1434-1449 | issues one fill or the frame's four, up to the first refusal, which it reports, and leaves the fence for them; a negative thickness fills exactly the rectangle's window |
| `Rectangles.RectangleArray` | im2d_api/src/im2d.cpp:1451-1472 | the fills of all rectangles are issued in order up to the first refusal, which it reports; on success the fence left covers exactly the fenced fills issued through both nested loops |
| `Rectangles.FillTaskArray` | im2d_api/src/im2d.cpp:1976-1986 | the job grows by the rectangles in order up to the first refusal, whose status is reported, and never past 256 tasks |
| `Rectangles.RectangleTaskArray` | im2d_api/src/im2d.cpp:1988-2014 | the same for all the fills the direct call issues, in the same order |
| `Rectangles.QueuedIff` | im2d_api/src/im2d_impl.cpp:2300-2322 | a queued array call succeeds if and only if the job has room for all its fills and each is admitted and answered |
| `Rectangles.FillsPaint` | im2d_api/src/im2d.cpp:1410-1472 | however fills of one colour interleave, the colour ends on exactly the windows they ask for, an empty rectangle asking for the image's size |
| `Rectangles.DirectEqualsQueued` | im2d_api/src/im2d.cpp:1976-2014 | fills that cover the same pixels, issued directly or queued, leave the same image in whatever orders the engine does them |
| `Rectangles.DirectAndQueued` | im2d_api/src/im2d.cpp:1976-2014 | when both calls succeed, what the direct one issued and the queued one queued leave the same image in any order; where the direct call succeeds the queued one does if and only if the fills are at most 256, and else stops at the 257th |
| `Rectangles.SixtyFiveFrames` | im2d_api/src/im2d.cpp:1988-2014 | 65 frames that the direct call paints and the queued call refuses |
| `Windows.AcceptsIff` | im2d_api/src/im2d_impl.cpp:787-844 | any rectangle is admitted if and only if it lies inside the strides and the size it asks for, its own or the image's if it is empty, is at least 2 x 2 and within strides and hardware limit |
| `Windows.RegionIs` | im2d_api/src/im2d_impl.h:80-85 | only a rectangle with both sides positive stands for itself; any other asks for the image's size |
| `Windows.CheckInfoCodes` | im2d_api/src/im2d_impl.cpp:787-844 | which code each kind of bad image or rectangle gets |
| `Windows.FillContainedIff` | im2d_api/src/im2d_impl.cpp:1854-1862 | an admitted fill stays inside the virtual image if and only if it is not empty or the strides leave room for its offset |
| `Windows.FillEscapesExample` | im2d_api/src/im2d_impl.cpp:1854-1862 | an admitted fill that does not |
| `Windows.ScaleAcceptedIff` | im2d_api/src/im2d_impl.cpp:3029-3044 | the scale check limits only reduction, to 16 times and on the oldest engines to 8 |
| `Windows.EnlargingIsUnlimited` | im2d_api/src/im2d_impl.cpp:3029-3044 | a blit that enlarges 4000 times passes it |
| `Windows.DefaultFiltersNeverRefused` | im2d_api/src/im2d_impl.cpp:3047-3090 | with default filters the interpolation checks refuse nothing |
| `Windows.ScaleRefusedIff` | im2d_api/src/im2d_impl.cpp:3013-3044 | the scale check refuses exactly reductions of more than 16, or 8 on the oldest engines, along the axes it compares |
| `Windows.LimitImpliesScale` | im2d_api/src/im2d_impl.cpp:846-871 | after rga_check_limit with a limit of at most that, it refuses exactly the quarter turns packed with a flip that look too much reduced unturned |
| `Windows.PackedTurnExample` | im2d_api/src/im2d_impl.cpp:3021-3028 | an unscaled quarter turn with a flip that the scale check refuses |
| `Windows.WithinLimitIff` | im2d_api/src/im2d_impl.cpp:846-871 | rga_check_limit admits exactly the scalings by at most the limit either way |
| `Windows.AreaOkIff` | core/NormalRgaApi.cpp:234-263 | which areas are good, in both directions |
| `Windows.ChosenFilters` | im2d_api/src/im2d_impl.cpp:3050-3067 | which filters are used for which scale |
| `Windows.FiltersRefused` | im2d_api/src/im2d_impl.cpp:3069-3090 | which filters are refused for which scale |
| `Windows.AcceptedIff` | im2d_api/src/im2d_impl.cpp:2974-3090 | a blit is accepted if and only if its areas, scale and filters are |
| `Windows.RotateModes` | im2d_api/src/im2d_impl.cpp:3102-3283 | the rotate mode for every rotation and flip code |
| `Windows.RequestedAngle` | im2d_api/src/im2d_impl.cpp:3102-3271 | the sine, cosine and window of the request for every rotation code: 4 is 90 degrees, 3 is 180, 7 is 270 |
| `Windows.PixelLands` | im2d_api/src/im2d_impl.cpp:3175-3271 | where each active pixel lands in the user's rectangle for every rotation code, after the legacy conversion |
| `Windows.AcceptedBlitStaysInside` | im2d_api/src/im2d_impl.cpp:2974-3011 | every accepted blit has both active windows inside the virtual images, stored without truncation, with the converted offsets spelled out; the third image's window too, its sides swapped by quarter turns |
| `Windows.PlaceExact` | core/NormalRgaApi.cpp:589-590 | the 16.16 sine and cosine rotate exactly by quarter turns |
| `Windows.RotationLandsInTarget` | core/NormalRgaApi.cpp:1105-1116 | after the legacy conversion the rotation maps the active window into the user's rectangle, injectively |
| `Windows.RotationCoversTarget` | im2d_api/src/im2d_impl.cpp:3175-3271 | and onto it |
| `Windows.Request.Generate` | im2d_api/src/im2d_impl.cpp:2974-3283 | refuses bad areas, scales and filters and then leaves the request alone, or fills in source, destination and third image, angle and rotate mode for rotations and flips |
| `Windows.Request.SetWindows` | im2d_api/src/im2d_impl.cpp:3102-3283 | the switch over the packed rotation and the setters after it |
| `Windows.Request.Convert` | core/NormalRgaApi.cpp:1105-1116 | the in-place offset adjustment of the legacy conversion |
| `Session.AdvanceKeepsStage` | im2d_api/src/im2d_context.cpp:113-200 | each step of the write-locked section keeps what its stage promises about descriptor, driver type, feature and capability table |
| `Session.FinishKeepsStage` | im2d_api/src/im2d_context.cpp:113-200 | an attempt ends with a fully initialised session or with none and no open descriptor |
| `Session.AttemptSucceedsIff` | im2d_api/src/im2d_context.cpp:113-200 | it succeeds if and only if every call it needs does, and then holds those answers: versions, cores, table, and the driver type, RGA1 exactly for a legacy core below version 2 |
| `Session.ZeroDescriptorIsNotRecognised` | im2d_api/src/im2d_context.cpp:208-239 | a successful attempt leaves a settled session if and only if its descriptor is positive |
| `Session.ZeroDescriptorLeaks` | im2d_api/src/im2d_context.cpp:208-239 | two calls that leave descriptor 0 open for good |
| `Session.LegacyFeatureIsStale` | im2d_api/src/im2d_context.cpp:41-44 | the fence feature reflects what this driver reported if and only if it answered or no recent version was left behind |
| `Session.StaleVersionExample` | im2d_api/src/im2d_context.cpp:123-168 | two attempts that grant the feature to a driver that reported no version |
| `Session.InvStep` | im2d_api/src/im2d_context.cpp:208-239 | every step of every thread keeps lock exclusion, the stage promise, the count of successes and what holders were handed |
| `Session.HandingOut` | im2d_api/src/im2d_context.cpp:212-238 | a reader is handed a published session at once and else goes for the write lock; a writer is handed what it set up or found |
| `Session.SecondCheck` | im2d_api/src/im2d_context.cpp:220-224 | the second check leaves a session set up in the meantime alone |
| `Session.UnloadOutcome` | im2d_api/src/im2d_context.cpp:202-206 | unloading, possible while no thread is inside, closes what is open and starts over |
| `Session.StartsBlank` | im2d_api/src/im2d_context.cpp:270-281 | the library starts with no session and nothing open |
| `Session.ReadersSeeSettled` | im2d_api/src/im2d_context.cpp:212-218 | under the read lock the session is never half built |
| `Session.RunKeepsInv` | im2d_api/src/im2d_context.cpp:208-239 | so the invariant holds in every run |
| `Session.SessionIsInitialisedOnce` | im2d_api/src/im2d_context.cpp:208-239 | initialisation succeeds at most once between unloadings, a returned session is fully initialised and never overwritten, and no failed attempt leaves a descriptor open |
| `Session.Global.Probe` | im2d_api/src/im2d_context.cpp:123-156 | the version queries in place, with the device closed on failure |
| `Session.Global.DeviceInit` | im2d_api/src/im2d_context.cpp:113-169 | the device setup in place has exactly the effect of the machine's stages |
| `Session.Global.DeviceExit` | im2d_api/src/im2d_context.cpp:171-181 | closes the device and clears type and feature, unless there is none |
| `Session.Global.SessionInit` | im2d_api/src/im2d_context.cpp:184-200 | adds the capability lookup and undoes the device setup if that fails |
| `Session.Global.GetSession` | im2d_api/src/im2d_context.cpp:220-238 | the write-locked section: a settled session stays settled, an existing one is returned unchanged |
| `Session.Global.Unload` | im2d_api/src/im2d_context.cpp:202-206 | unloading leaves nothing open |
| `SyncMerge.InvStep` | core/rga_sync.cpp:153-177 | every interleaved step keeps the cache unknown or right and never changes it once set |
| `SyncMerge.CacheAgreesIff` | core/rga_sync.cpp:153-177 | for any answers, a cached interface gives the uncached result if and only if it does not skip a modern call that would have answered |
| `SyncMerge.UncachedIs` | core/rga_sync.cpp:153-177 | the legacy answer counts exactly when the modern call fails with ENOTTY |
| `SyncMerge.WhatWorksIsStored` | core/rga_sync.cpp:160-176 | a merge that works while nothing is cached goes on to cache the interface that worked, and no other does |
| `SyncMerge.LoadAndStore` | core/rga_sync.cpp:158-176 | a cached legacy interface skips the modern call, and a store sets the cache |
| `SyncMerge.RunKeepsInv` | core/rga_sync.cpp:64-77 | in every run on a one-interface kernel |
| `SyncMerge.CacheNeverChangesOnceSet` | core/rga_sync.cpp:72-77 | the cache keeps its first value |
| `SyncMerge.MergeEqualsUncached` | core/rga_sync.cpp:153-177 | every finished merge returned what trying modern and then legacy would have |
| `SyncMerge.Cache.Merge` | core/rga_sync.cpp:153-177 | the call itself: result, new cache, and agreement with the uncached form |
| `Stride.Gcd` | im2d_api/src/im2d_impl.cpp:57-66 | the GET_GCD loop computes the greatest common divisor whatever its variable held before |
| `Stride.FillsIffMultiple` | im2d_api/src/im2d_impl.cpp:1144-1148 | the strides that pass the test are exactly the multiples of the least positive one |
| `Stride.AlignIsLeast` | im2d_api/src/im2d_impl.cpp:1150-1151 | lcm / pixel size is that least positive stride |
| `Stride.ModeAlignedIff` | im2d_api/src/im2d_impl.cpp:1098-1142 | which sizes each buffer mode demands |
| `Stride.CheckAlign` | im2d_api/src/im2d_impl.cpp:1094-1158 | accepted if and only if the mode's sizes are aligned and the stride is a multiple of the alignment a refusal reports |
| `Versions.BracketIndex` | im2d_api/src/im2d_impl.cpp:140-184 | the backward search loop returns the last bracketing index |
| `Versions.CompareIs` | im2d_api/src/im2d_impl.cpp:118-130 | versions compare by major, minor, revision |
| `Versions.SearchFindsGreatest` | im2d_api/src/im2d_impl.cpp:140-184 | on a sorted column that is the greatest entry not above the version, and -1 if and only if there is none |
| `Versions.MinimumIsAlwaysFound` | im2d_api/src/im2d_impl.cpp:343-386 | the failed-minimum branch is unreachable, and the row reported is the greatest suitable one, later than the library's own |
| `Versions.CheckMeans` | im2d_api/src/im2d_impl.cpp:343-386 | on sorted tables the check says whether a version is too old for the library's row, fits it, or reaches the next |
| `Versions.CheckUnknownIff` | im2d_api/src/im2d_impl.cpp:349-353 | it fails outright exactly for a library older than every row |
| `Versions.CodeIs` | im2d_api/src/im2d_impl.cpp:343-386 | the code for each outcome |
| `Versions.ShippedTables` | im2d_api/src/im2d_impl.cpp:751-785 | with the shipped tables every driver version is accepted, and a header if and only if it is at least 1.4.0 |
| `ColorSpace.SelectIs` | core/NormalRgaApi.cpp:850-892 | which mode codes are accepted, and the clipping of each |
| `ColorSpace.PromisedIs` | include/rga.h:171-186 | which encodings each accepted code names |
| `ColorSpace.QuantizeError` | core/NormalRgaApi.cpp:897-911 | a coefficient errs by more than -1/2 and less than 3/2, and is properly rounded if and only if it is not truncated upwards |
| `ColorSpace.MisroundedExample` | core/NormalRgaApi.cpp:897-911 | a coefficient of the tables that is not rounded to the nearest |
| `ColorSpace.FixedCloseToTable` | core/NormalRgaApi.cpp:829-840 | for every table and all inputs in [0, 255] the fixed-point rows are within 3/4 of a code value of the real ones |
| `ColorSpace.ModeConforms` | core/NormalRgaApi.cpp:850-892 | every accepted mode takes every colour from the encoding its name reads to within 3/4 of the code values BT.601 or BT.709 gives that colour |
| `ColorSpace.ClippedConforms` | core/NormalRgaApi.cpp:841-846 | the clipping chosen with the mode keeps that bound |
| `ColorSpace.Request.FullColorSpaceConvert` | core/NormalRgaApi.cpp:810-920 | the request gets the quantised table (within int16 and int32) and clip of an accepted mode, and is untouched with result -1 otherwise |
| `Gaussian.LoopsAre` | im2d_api/src/im2d_impl.cpp:1554-1557 | the offsets the loops run over and the cell of each |
| `Gaussian.InBoundsIffOdd` | im2d_api/src/im2d_impl.cpp:1554-1562 | the nested loops stay inside the kernel buffer if and only if both sizes are odd |
| `Gaussian.WeightIsGaussian` | im2d_api/src/im2d_impl.cpp:1550-1559 | the weights are the two-dimensional Gaussian of the two sigmas |
| `Gaussian.KernelCell` | im2d_api/src/im2d_impl.cpp:1554-1568 | every weight is at the cell of its row and column, divided by the total |
| `Gaussian.FillRow` | im2d_api/src/im2d_impl.cpp:1555-1561 | one row of the kernel: the cells are written in order, each once, and summed |
| `Gaussian.NormalisedSumsToOne` | im2d_api/src/im2d_impl.cpp:1565-1568 | positive weights divided by their sum are in (0, 1] and sum to 1 |
| `Gaussian.GenerateKernel` | im2d_api/src/im2d_impl.cpp:1548-1569 | for all odd sizes and positive weights every cell ends with its weight's share, and the shares sum to 1 |
| `Gaussian.PointsFitIffOdd` | im2d_api/src/im2d_impl.cpp:1571-1591 | the points fill the (width + height) / 2 words exactly if and only if both sizes are odd |
| `Gaussian.PointCellInside` | im2d_api/src/im2d_impl.cpp:1577-1588 | every point is read inside the kernel, the last one at its centre |
| `Gaussian.PointPath` | im2d_api/src/im2d_impl.cpp:1577-1588 | the points go along the first row to its middle, then down to the centre |
| `Gaussian.ToUint32Is` | im2d_api/src/im2d_impl.cpp:1579-1586 | conversion truncates what uint32_t can hold |
| `Gaussian.QuantizedInRange` | im2d_api/src/im2d_impl.cpp:1579-1586 | a kernel value in [0, 1] gives a word in 0..factor, within a half of its exact place |
| `Gaussian.CoefficientFitsIff` | im2d_api/src/im2d_impl.cpp:1579-1586 | a value is sure to fit 0..255 if and only if its scaled value lies above -1.5 and below 255.5 |
| `Gaussian.CoefficientOverflowsIff` | im2d_api/src/im2d_impl.cpp:1579-1586 | a value is too large without any undefined conversion if and only if its scaled value is at least 255.5 and fits uint32_t |
| `Gaussian.LargeMatrixExample` | im2d_api/src/im2d_impl.cpp:1617-1639 | a caller's matrix of twos is accepted and gives a coefficient of 510 |
| `Gaussian.EvenSizeExample` | im2d_api/src/im2d_impl.cpp:1554-1562 | a 2 x 2 kernel whose last cell and points lie outside their buffers |
| `Gaussian.SpecialPoints` | im2d_api/src/im2d_impl.cpp:1571-1591 | for any kernel each point is the converted kernel value on the path along the first row and down to the centre |
| `Gaussian.Blur.DefaultSigmas` | im2d_api/src/im2d_impl.cpp:1604-1615 | both sigmas end up positive for every size; given ones are kept, missing ones follow the documented rules |
| `Gaussian.Blur.Coefficients` | im2d_api/src/im2d_impl.cpp:1593-1639 | only 3 x 3 is accepted; the coefficients are corner, edge and centre of the caller's matrix or of the normalised kernel for the defaulted sigmas, each at most 255 unless the caller's entries leave [0, 1] |

## Left out

- Android gralloc, RT-Thread and DRM allocation paths: foreign calls with no logic of their own.
- Logging, `querystring`, debug dumps, environment properties, `is_debug` and the samples: input and output.
- Format tables, the capability merge of `rga_get_info`, enum translation and OSD fields: finite case splits that would only add easy members; the capability table is an arbitrary value here.
- NULL arguments of `NormalRgaOpen` and `NormalRgaClose` themselves, which return before touching any state.
- 32-bit overflow of `refCount`, `active_operations` and `job_count`: they count as unbounded integers.
- Request contents: a request appended to a job is an opaque value; nothing is said about the Gaussian coefficients it may point to, which `rga_task_submit` frees even in job mode.
- Buffers without a usable address: an image is taken to have one.
- Mirroring: a flip is recorded in the request's rotate mode; how the engine mirrors pixels inside the window it rotates is not modelled in `Windows` (borders use plain flips, in `Raster`).
- Where the engine writes when a requested window reaches past the virtual image: it is taken to write the window.
- The closing of fences, failed merges inside the array calls, `rga_sync_wait` and its retry loop.
- Node memory of the job list: a deleted node is unlinked, its deallocation is not modelled.
- Borders wider than the source, for which `IM_BORDER_REFLECT` and `IM_BORDER_WRAP` declare no pattern.
- Alignment between the channels of an image beyond `rga_check_align`, and per-version address fields of RGA1.
- Raster.AnyScheduleSameImage: the engine's pixel order is left arbitrary; scaling, colour conversion and blending inside a task are not modelled, only copies, flips and fills.
- Gaussian.GenerateKernel: `exp` and pi are arbitrary positive parameters, so nothing is said of the kernel's shape beyond each cell's share.
- ColorSpace.ModeConforms: the coefficients are taken as numerators over 1023, the factor they are scaled by; the engine's own rounding of the sum is not part of this model.
- Windows.PlaceExact: the engine is taken to rotate by the request's sine and cosine about its destination offset, as the request's fields are documented.
