# SimpleTiling scheduler in Dafny

This project models the tile scheduler of SimpleTiling (`SimpleTiling/SimpleTiling.cpp`).
The library splits a canvas into up to 64 rectangular tiles and gives each tile its own worker, job queues and colour buffers.
A main thread submits draw jobs with a 64-bit tile mask and copies finished tiles into a shared back buffer.

The model is sequential. The scheduler is one object, and each library operation is one atomic step on it. A value another thread stores while a step runs becomes an input of that step:
- `observed[rel]` is the tile state a worker reads before row `rel`;
- `running` is `tile_running[t]` at the end of a draw pass.

Modules, following the source's structure:

- `TilingTypes` (`types.dfy`) holds:
  - the constants: 8 vector lanes, 64 tiles, 32 queued jobs;
  - 32- and 64-bit unsigned integers;
  - `ColorBatch` and the three tile states;
  - `PixelFn`, a caller's draw job. Given the first pixel index of an 8-pixel batch, it returns that batch's colours.
- `JobQueues` (`jobqueue.dfy`): `job_q` as a class over three fixed arrays and a counter. It is a bounded stack: appends are dropped when it is full, and consumption takes the newest entry.
- `FastVecs` (`fastvec.dfy`): the unchecked `fast_vec<uint32_t>` list.
- `Allocator` (`allocator.dfy`): the bump allocator (`alloc`, `alloc_array`) and the byte layout that setup carves from the pool.
- `Layout` (`layout.dfy`): setup's grid-shape choice, with an integer perfect-square test. Also each tile's rectangle, and the inverse map from a pixel to the tile that owns it.
- `Tiling` (`scheduler.dfy`):
  - the `Scheduler` class, which models setup, draw submission, `draw_wrapper`, one iteration of `thread_main`, and `swap_tile_buffers`;
  - the array-level loops those operations run: the row and batch loops of the draw pass, the replay of staged rows, and the row-by-row copy-out.

Main results:
- **Layout.** The tiles are pairwise disjoint and lie inside the canvas. When both dimensions divide evenly, they cover it exactly.
- **Draw pass.** A draw pass on a still-running tile leaves the whole tile buffer holding the job's colours, even when some leading rows were drawn while the tile was being uploaded (`DrawWrapper`, `ReplayCompletes`).
- **Copy-out.** `SwapTileBuffers` changes exactly the canvas pixels of the tiles that were uploading. Each such pixel receives its tile's pixel (`CopyOut`, `OwnedPixelsCopied`, `CopiedPixelPlacement`).
- **End to end.** After a finished draw and a copy-out, every canvas pixel owned by the tile shows the job's colour for that very pixel (`FinishedTileShown`, `FinishedTileOnCanvas`).
- **Lifecycle.** On a freshly set-up scheduler, a submitted job, one worker iteration and a copy-out leave every pixel of tile 0 showing the job's colour (`FirstFrame`). Setup allocates fresh objects (`Repr`), and submission keeps the layout, the buffers and the back buffer, so later operations can be called on the result.

## Model

| member | source | states |
|---|---|---|
| JobQueues.JobQueue.constructor | SimpleTiling/SimpleTiling.cpp:77-81 | A zero-initialised queue holds no entries. |
| JobQueues.JobQueue.AppendJob | SimpleTiling/SimpleTiling.cpp:42-59 | When `front < 32`: the entry goes into slot `front` of the three arrays and `front` advances by one. When the queue is full: nothing changes (drop-newest). `front` stays within 0..32. |
| JobQueues.JobQueue.ConsumeJob | SimpleTiling/SimpleTiling.cpp:61-75 | Requires a non-empty queue. Returns the most recently appended entry and removes it. The entries below it are unchanged (LIFO). |
| JobQueues.BurstKeepsEarliest | SimpleTiling/SimpleTiling.cpp:42-59 | A burst of appends keeps exactly its first `min(burst, 32 - pending)` entries, in order, and the queue never exceeds 32 entries. |
| JobQueues.ConsumeUndoesAppend | SimpleTiling/SimpleTiling.cpp:42-75 | Consuming right after a successful append hands back that entry and restores the previous queue. |
| FastVecs.FastVec.constructor | SimpleTiling/SimpleTiling.cpp:90-97 | A zero-initialised list (as the global lists are at :118) after `init(memory)` is empty and stores into `memory`. |
| FastVecs.FastVec.PushBack | SimpleTiling/SimpleTiling.cpp:98-102 | Writes slot `front`, advances `front`, and appends the element to the contents. Only that one storage slot changes. |
| FastVecs.FastVec.Clear | SimpleTiling/SimpleTiling.cpp:103-106 | The list becomes empty; the storage itself is untouched. |
| FastVecs.FastVec.Size | SimpleTiling/SimpleTiling.cpp:107-110 | Returns the number of elements pushed since the last clear. |
| FastVecs.FastVec.At | SimpleTiling/SimpleTiling.cpp:111-114 | Returns storage slot `i`, which is the `i`-th pushed element when `i` is below the size. |
| Allocator.Arena.constructor | SimpleTiling/SimpleTiling.cpp:341-342 | A new pool has its front at its start and no blocks handed out. |
| Allocator.Arena.Alloc | SimpleTiling/SimpleTiling.cpp:275-281 | Returns the old front, advances the front by the size, and records that block at the end of the chain. |
| Allocator.Arena.AllocArray | SimpleTiling/SimpleTiling.cpp:283-289 | Returns the old front, advances it by exactly element size × count, and records the block. |
| Allocator.ChainExtend | SimpleTiling/SimpleTiling.cpp:283-289 | Appending a block at the current front keeps the blocks back to back. |
| Allocator.ChainedDisjoint | SimpleTiling/SimpleTiling.cpp:275-289 | Successive allocations form increasing, pairwise non-overlapping ranges inside [pool start, front). |
| Allocator.AllocTile | SimpleTiling/SimpleTiling.cpp:352-358 | One tile takes a tile buffer, a staging buffer and strip storage, back to back. The front moves by the tile's byte count. |
| Allocator.SetupAllocations | SimpleTiling/SimpleTiling.cpp:345-363 | Tile `i`'s three arrays start at pool + `i` × per-tile bytes, in that order. The back buffer follows the last tile, and the front ends at pool + the total bytes. |
| Allocator.BudgetTooSmallForUhd | SimpleTiling/SimpleTiling.cpp:272-272 | A 3840x2160 canvas in four tiles needs more bytes than the fixed 100 MB budget. |
| Layout.FloorSqrtBounds | SimpleTiling/SimpleTiling.cpp:304-305 | The integer square root `r` of `n` satisfies r² ≤ n < (r+1)². |
| Layout.RootIsFloorSqrt | SimpleTiling/SimpleTiling.cpp:304-308 | When `k*k == n`, the integer square root of `n` is `k`. |
| Layout.SquareTestExact | SimpleTiling/SimpleTiling.cpp:304-305 | The integer perfect-square test holds exactly when `n` has a natural square root. |
| Layout.GridShape | SimpleTiling/SimpleTiling.cpp:302-322 | Setup's grid choice adds at most one tile to the request, and for a non-empty request gives a grid with columns × rows = tiles and no empty axis. |
| Layout.GridShapeRule | SimpleTiling/SimpleTiling.cpp:302-322 | The grid shape is chosen as follows: a perfect square k² gives a k×k grid; an even non-square gives 2 columns × n/2 rows; an odd non-square gives n+1 tiles in 2 columns × (n+1)/2 rows. |
| Layout.GridShapeSupported | SimpleTiling/SimpleTiling.cpp:302-322 | For 1 ≤ n ≤ 64 the grid has columns × rows = tiles, no empty axis, and at most 64 tiles. |
| Layout.TileWidth | SimpleTiling/SimpleTiling.cpp:324-324 | `tile_width_px` never exceeds the canvas width. |
| Layout.TileHeight | SimpleTiling/SimpleTiling.cpp:325-325 | `tile_height_px` never exceeds the canvas height. |
| Layout.TileSizeRoundsDown | SimpleTiling/SimpleTiling.cpp:324-325 | The tile sizes are the canvas sizes divided by the grid and rounded down: the grid of tiles fits in the canvas, and one more pixel per tile would not. |
| Layout.TileRect | SimpleTiling/SimpleTiling.cpp:331-335 | The bounds the layout loop writes give every tile the same `tile_width_px` × `tile_height_px` size. |
| Layout.SlotRect | SimpleTiling/SimpleTiling.cpp:326-338 | Counter value `x*numTilesY + y` is a valid tile. Its rectangle starts at column `w*x` and row `h*y`. |
| Layout.TileInsideCanvas | SimpleTiling/SimpleTiling.cpp:324-338 | Every tile's rectangle ends inside the canvas, even when the canvas does not divide evenly. |
| Layout.TileAtCorrect | SimpleTiling/SimpleTiling.cpp:324-338 | A pixel lies in tile `c`'s rectangle exactly when the pixel-to-tile map names `c`. |
| Layout.TilesDisjoint | SimpleTiling/SimpleTiling.cpp:324-338 | No pixel lies in two different tiles. |
| Layout.TilesCoverCanvas | SimpleTiling/SimpleTiling.cpp:324-338 | When both canvas dimensions divide evenly, every canvas pixel lies in some tile. |
| Layout.CanvasPixelOfTile | SimpleTiling/SimpleTiling.cpp:423-429 | Pixel (col, row) of tile `c` sits at canvas index (minY+row)·width + minX + col. That index is inside the canvas and belongs to tile `c`. |
| Tiling.LeadingUploads | SimpleTiling/SimpleTiling.cpp:155-171 | Counts the rows that the worker stages: every one of the first `k` observed states is Uploading, and the next one is not. |
| Tiling.ImagePixel | SimpleTiling/SimpleTiling.cpp:175-199 | Pixel (row, col) of a finished tile buffer is lane `col % 8` of the job applied to the first pixel of col's batch. |
| Tiling.ReplayCompletes | SimpleTiling/SimpleTiling.cpp:153-227 | Drawing rows k.. into the tile buffer and rows ..k-1 into staging, then replaying the staged rows, leaves the whole image in the tile buffer. |
| Tiling.DrawRow | SimpleTiling/SimpleTiling.cpp:175-203 | After one row's batch loop, that row of the destination holds the job's batches at index `(rel*width + x)/8`. Every other slot is unchanged. |
| Tiling.DrawRows | SimpleTiling/SimpleTiling.cpp:153-204 | The `k` leading Uploading rows are listed 0..k-1 in the strip list and drawn into staging. The first other row flags the tile Processing, and the remaining rows are drawn into the tile buffer. Nothing else changes. |
| Tiling.DrawPass | SimpleTiling/SimpleTiling.cpp:153-231 | When still running, the tile buffer ends up holding the whole image, the strip list is empty, and the state is Uploading. Otherwise the row-pass results stand. |
| Tiling.ReplayStrips | SimpleTiling/SimpleTiling.cpp:215-227 | Every listed strip row is copied from staging into the tile buffer. The rest of the buffer is unchanged. |
| Tiling.CopyStrip | SimpleTiling/SimpleTiling.cpp:221-226 | One memcpy copies exactly row `row`'s batches from staging into the tile buffer. |
| Tiling.CopyPixels | SimpleTiling/SimpleTiling.cpp:427-427 | One memcpy stores `n` consecutive pixels of the tile buffer at `outPtr..outPtr+n-1`. The rest of the back buffer is unchanged. |
| Tiling.RowCopied | SimpleTiling/SimpleTiling.cpp:425-430 | Copying canvas row `y`'s span extends a copy-out of rows minY..y-1 to rows minY..y. |
| Tiling.CopyRow | SimpleTiling/SimpleTiling.cpp:425-430 | One pass of the row loop copies canvas row `y`'s span of the tile from the tile's row `y - minY`. |
| Tiling.CopyTileOut | SimpleTiling/SimpleTiling.cpp:415-430 | The row loop, with the input pointer advancing by `width/8` batches and the output by the canvas width. Afterwards the tile's rectangle shows the tile buffer row by row, and the rest of the canvas is unchanged. |
| Tiling.OwnedPixelsCopied | SimpleTiling/SimpleTiling.cpp:415-430 | A whole-rectangle copy-out changes exactly the canvas pixels that the pixel-to-tile map assigns to that tile. |
| Tiling.CopiedPixelPlacement | SimpleTiling/SimpleTiling.cpp:415-430 | Canvas index (minY+r)·width + minX + c receives tile pixel `r*tileWidth + c`. |
| Tiling.DrawnPixelShown | SimpleTiling/SimpleTiling.cpp:175-199 | For a finished draw pass, the copy-out value at canvas index `q` is lane `l` of the job applied at `q - l`, where `l` is q's offset within its batch. |
| Tiling.LayOut | SimpleTiling/SimpleTiling.cpp:302-338 | Setup's layout: the grid of the layout rule, and four bounds arrays holding every tile's rectangle. |
| Tiling.LayOutTiles | SimpleTiling/SimpleTiling.cpp:324-338 | The nested x/y loop gives slot `x*numTilesY + y` the rectangle of column `x`, row `y`. Slots past the last tile are untouched. |
| Tiling.AllocateStorage | SimpleTiling/SimpleTiling.cpp:348-363 | Per tile: empty draw and update queues, separate tile and staging buffers of tile-area batches, and an empty strip list. Then a back buffer of canvas size. |
| Tiling.NarrowTileHasNoArea | SimpleTiling/SimpleTiling.cpp:345-358 | A tile narrower than one 8-pixel batch has an area of zero batches, so its strip storage cannot hold a single blocked row. |
| Tiling.UhdSetupOverBudget | SimpleTiling/SimpleTiling.cpp:272-363 | Setup's pool for four tiles on a 3840x2160 canvas exceeds `mem_budget`, so the budget precondition of setup excludes it. |
| Tiling.Scheduler.constructor | SimpleTiling/SimpleTiling.cpp:293-363 | Setup records the canvas, lays out the grid of the layout rule, and sets every tile Idle with empty queues and strip lists. Every object it sets up is newly allocated (`fresh(Repr)`), and the state is valid. |
| Tiling.Scheduler.SubmitDrawWorkInternal | SimpleTiling/SimpleTiling.cpp:135-139 | Appends the job to one tile's draw queue (or drops it when full). Every other tile's queue is unchanged. |
| Tiling.Scheduler.SubmitUpdateWorkInternal | SimpleTiling/SimpleTiling.cpp:141-145 | Appends the job to one tile's update queue, or drops it when full. |
| Tiling.Scheduler.SubmitToTile | SimpleTiling/SimpleTiling.cpp:238-248 | For one tile: a set mask bit queues one job naming the tile. A clear bit sets the tile Idle unless it is Uploading. |
| Tiling.Scheduler.SubmitDrawWork | SimpleTiling/SimpleTiling.cpp:234-250 | Every selected tile gets exactly one draw job whose input is its own index. Every unselected, non-Uploading tile becomes Idle, and an Uploading one is left alone. The layout, the update queues, every tile buffer, staging buffer and strip list, and the back buffer are unchanged. |
| Tiling.Scheduler.ConsumeDraw | SimpleTiling/SimpleTiling.cpp:61-75 | Pops the newest draw entry. It is the draw wrapper with the tile's own index as input. |
| Tiling.Scheduler.ConsumeUpdate | SimpleTiling/SimpleTiling.cpp:264-267 | Pops the newest update entry of the tile. |
| Tiling.Scheduler.DrawWrapper | SimpleTiling/SimpleTiling.cpp:147-232 | When still running, the tile buffer holds the job's whole image, the strips are cleared, and the state is Uploading. Otherwise the leading blocked rows are drawn into staging and listed, the later rows are drawn into the tile buffer, and the state is Processing (or Uploading when every row was blocked). Other tiles' states are unchanged. |
| Tiling.Scheduler.DrawStep | SimpleTiling/SimpleTiling.cpp:260-263 | With a draw job queued: the newest job is popped and its draw pass has the full outcome DrawWrapper states (tile buffer, staging rows, strip list and tile state). With none queued: the queue, buffers, strips and state are unchanged. |
| Tiling.Scheduler.WorkerStep | SimpleTiling/SimpleTiling.cpp:255-267 | One worker iteration: the draw step with its full outcome, then the newest update job (if any) is popped and handed back. |
| Tiling.Scheduler.UpdateStep | SimpleTiling/SimpleTiling.cpp:264-267 | With an update job queued, the newest one is popped and handed back; with none, the queue is unchanged. |
| Tiling.Scheduler.FinishedTileShown | SimpleTiling/SimpleTiling.cpp:147-232 | Once a tile's buffer holds a finished draw of a job, the pixel the tile contributes at canvas index `q` is the job's colour for pixel `q`. |
| Tiling.Scheduler.FinishedTileOnCanvas | SimpleTiling/SimpleTiling.cpp:415-430 | When a tile's buffer holds a finished draw and its pixels have been copied out, every canvas pixel the tile owns shows the job's colour for that pixel. |
| Tiling.Scheduler.CopyOut | SimpleTiling/SimpleTiling.cpp:415-430 | Every canvas pixel of tile `i` shows the tile's pixel, and every other back-buffer pixel is unchanged. |
| Tiling.Scheduler.SwapTileBuffers | SimpleTiling/SimpleTiling.cpp:408-441 | Every Uploading tile becomes Processing, and its canvas pixels show its tile pixels. All other states and back-buffer pixels are unchanged. |
| Tiling.SetUpAndSubmit | SimpleTiling/SimpleTiling.cpp:234-363 | Setup followed by `submit_draw_work` with only bit 0 set: the objects are fresh, tile 0's draw queue holds exactly that job naming tile 0, and every tile is Idle. |
| Tiling.WorkTile0 | SimpleTiling/SimpleTiling.cpp:255-267 | One worker iteration for tile 0, running throughout, with that job as its only draw entry: tile 0's buffer holds the job's image and the tile is Uploading. |
| Tiling.FirstFrame | SimpleTiling/SimpleTiling.cpp:234-441 | Setup, submission to tile 0, one worker iteration and `swap_tile_buffers`: every canvas pixel owned by tile 0 shows the job's colour for that pixel, whatever states the worker observed. |

## Left out

- **Threads and atomics.** Thread creation (SimpleTiling.cpp:353-356), the polling loop of `thread_main` (:255) and `tile_shutdown_success` are not modelled. `WorkerStep` models one iteration of the loop body. Values other threads store are step inputs (`observed`, `running`).
- **The wait at :206-213.** It is taken to end, so the replay follows directly.
- **`notify_one`.** The calls at :438 have no effect in a sequential model.
- **`shutdown` (:383-405).** Its notify/join handshake is concurrency only. Its `free` of the pool is outside the allocator model.
- **The spin in `consume_job` (:66-70).** It is replaced by the precondition `front > 0`; `thread_main` checks it before every call.
- **Update wrappers and jobs.** These are caller code with no body here. `WorkerStep` hands the popped update entry back instead of running it.
- **Floating point.** The `sqrt`/`floor` perfect-square test (:304-305) is modelled by an integer square root. The `set_ps` float vector of pixel indices (:179-186) is modelled by the integer index of the batch's first pixel, which determines the vector.
- **Win32.** The `BITMAPINFO` set-up (:366-380) and `win_paint` (:445-449) are not modelled.
- **Header-only declarations.** `task_graph`, `submit_update_work`, `submit_task_graph`, `WaitForTileProcessing`, `WaitForTileUpload` and the `GetNumTiles*` functions have no body (SimpleTiling.h:72-84, :115, :120, :123-124, :128-130). The header's `using_interlacing` parameter (SimpleTiling.h:133) is absent from the definition of `setup`.
- **Storage placement.** The scheduler's buffers are separate Dafny arrays. Their placement in the byte pool is modelled on its own by `Allocator.SetupAllocations` and is not tied to the arrays.
- **`mem_budget`.** The source never checks it. `Allocator.Arena.Alloc` and `Allocator.Arena.AllocArray` require the allocation to fit in the pool. Setup requires its whole pool to fit (`Tiling.FitsBudget`), because the scheduler's arrays are not carved from a modelled pool.
- Tiling.Scheduler.constructor: requires 1 ≤ tile count ≤ 64, a canvas area below 2^32, and a pool that fits `mem_budget` (`Tiling.FitsBudget`). The source checks none of these: 0 tiles divides by zero at :324, more than 64 writes past the 64-entry arrays, a larger canvas overflows the 32-bit area, and an over-budget setup (four tiles at 3840x2160, `Tiling.UhdSetupOverBudget`) places the back buffer past the 100 MB block malloc'd at :341, so `swap_tile_buffers` then writes outside it. The model does not describe such setups. `Tiling.SetUpAndSubmit` and `Tiling.FirstFrame` carry the same preconditions.
- Tiling.Scheduler.DrawWrapper: requires the tile width to be a non-zero multiple of 8 (`LaneAligned`). Tile buffers hold `(width/8)·height` batches (:345-347).
  - For a width that is not a multiple of 8, the batch store at :201 and the copy-out's reads at :427 run past the buffer. The model does not describe that behaviour.
  - A width of 0 arises when the canvas is narrower than the grid has columns. The batch loop at :175 then never runs, and each memcpy at :427 copies nothing, so drawing and copy-out stay in bounds. But the tile's area is then 0 batches, so its strip storage (:358) has no slots (`Tiling.NarrowTileHasNoArea`). A pass that finds the tile still Uploading pushes a row index past that storage at :170. The model excludes width 0 because its row-by-row buffer layout divides by the batches per row.
- Tiling.Scheduler.DrawWrapper: requires an empty strip list. A pass that ends with the tile no longer running leaves its strips listed. The worker loop then exits, so within one setup a later pass never starts from a non-empty list. A second setup is covered under "A second setup" below.
- Tiling.Scheduler.CopyOut: requires `LaneAligned`, for the reason given for DrawWrapper.
- Tiling.Scheduler.SwapTileBuffers: requires `LaneAligned`, for the reason given for DrawWrapper.
- Tiling.Scheduler.DrawStep: also requires `LaneAligned` and an empty strip list, for the reasons given for DrawWrapper.
- Tiling.Scheduler.WorkerStep: also requires `LaneAligned` and an empty strip list, for the reasons given for DrawWrapper.
- **A second setup.** `fast_vec::init` (:94-97) sets only the data pointer, and the strip lists are globals (:118). A second `setup` in the same process therefore keeps any strips a stopped pass left listed. The model covers one setup: its strip lists start empty.
- **What the code does not do.** The model follows the code, which:
  - does not check that the canvas divides evenly, so tiles then leave the right and bottom edges uncovered;
  - keeps each job queue as a bounded stack, not a ring buffer;
  - has no barriers between tiles;
  - copies tiles out on the main thread in `swap_tile_buffers`, not on the workers;
  - sets a copied tile Processing, not Idle as the comment at SimpleTiling.h:88 describes;
  - has no time budget or region merging when presenting;
  - draws no interlaced frames.
