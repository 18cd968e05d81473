# RustMpiMandelbrot row protocol, in Dafny

This project models the part of RustMpiMandelbrot that handles the work and proves properties about it. The program renders an escape-time fractal across a set of MPI processes. `src/main.rs` uses dynamic load balancing:
- Rank 0 is the master. It receives one message at a time from any worker.
- The master paints the row that a message carries, unless the message's tag is 0.
- It replies to the sender with the next row index, `linesOut`, and then increments that counter.
- It stops once `linesIn >= height - 1`.
- Every other rank is a worker. A worker first makes contact with tag 0. It then repeatedly receives an index. If the index is at or past the height, the worker exits. Otherwise it computes the row's shades (`i % 16` per pixel) and sends the row back tagged with its index.

`src/experiments/arbprecision.rs` uses a static partition instead:
- Each rank computes `height / size` consecutive rows into a row-major buffer.
- The root gathers the buffers and paints pixel `(x, y)` from entry `y * imgx + x`.

Modules, leaves first:
- `Pixels`, `Messages`: bytes (`u8`), `Rgb`, `Option`, and the worker-to-master message `(source, tag, row)`.
- `Arms`: Rust's `match` over integer literals. The first matching arm wins, and arms after a repeated key are never selected.
- `Colours`: `getR`/`getG`/`getB` of `src/main.rs`. Keys are 1 to 16, and every other byte maps to 0.
- `ArbColours`: the nested tables of `arbprecision.rs`, with their repeated key 6. It also holds the same tables with the keys corrected.
- `Escape`: the escape-time kernel. The floating-point test `zX2 + zY2 < 4.0` becomes an oracle `inside(x, y, i)`: does the test pass at check `i` for pixel `(x, y)`? The module also holds the per-pixel loop and the row of shades.
- `Worker`: `RunWorker` as a method over the stream of indices the worker receives, and the row-filling loop over a reused array.
- `Master`: one turn of the master's loop as a function (`Handle`) on a state made of counters, receive buffer and grid. `Serve` is the loop over messages in arrival order. The `Master` class holds the counters, the buffer `array` and the image `array2`, updated in place; its `Receive` and `Run` are proved equal to `Handle` and `Serve`.
- `Protocol`: the master and any number of workers. A run is fixed by the order in which worker messages are delivered, which replaces "receive from any process". The module holds an invariant of every reachable system and the coverage theorem.
- `StaticPartition`: the band size `imgy`, the fill loop with its running position `p`, the gather, and the assembly loop.

Behaviours of the code that the model keeps:
- The tag 0 is both the first contact and the tag of a finished row 0, so row 0 is never painted. The `height - 1` exit threshold matches this.
- `linesOut` is incremented after every reply, so it goes past `height`.
- A message longer than the receive buffer is an MPI truncation error, modelled as a fault.
- A message shorter than the receive buffer overwrites only the front of the buffer.
- A non-zero tag at or past the height makes `get_pixel_mut` panic. This is modelled as a fault after `linesIn` has been incremented.

## Model

| member | source | states |
|---|---|---|
| `Arms.FirstArmIsEarliest` | src/experiments/arbprecision.rs:62-82 | a `match` selects the earliest arm whose key equals the scrutinee, and falls to the wildcard exactly when no key equals it |
| `Arms.ShadowedArmUnreachable` | src/experiments/arbprecision.rs:62-82 | an arm whose key already appears in an earlier arm is never selected, for any input |
| `Arms.MatchConsecutive` | src/main.rs:166-186 | in a table keyed `base`, `base + 1`, ... a key in range selects the arm at its offset, any other byte the wildcard |
| `Colours.GetR` | src/main.rs:166-186 | `getR(x)` is the red component of palette entry `x - 1` for `1 <= x <= 16`, and 0 otherwise |
| `Colours.GetG` | src/main.rs:189-209 | `getG(x)` is the green component of palette entry `x - 1` for `1 <= x <= 16`, and 0 otherwise |
| `Colours.GetB` | src/main.rs:212-232 | `getB(x)` is the blue component of palette entry `x - 1` for `1 <= x <= 16`, and 0 otherwise |
| `Colours.Colour` | src/main.rs:61 | `(getR, getG, getB)` of shade `x` is palette entry `x - 1` for `1 <= x <= 16`, and black for 0 and for every byte above 16 |
| `Colours.SixteenArmUnused` | src/main.rs:166-232 | a shade below 16, which is all the worker produces, never selects the key-16 arm of any table |
| `Colours.PaletteHasNoBlack` | src/main.rs:166-232 | all 16 listed colours differ from black |
| `ArbColours.MatchStopsAtSix` | src/experiments/arbprecision.rs:62-82 | in a table whose arm k has key min(k, 6), shades 0 to 6 select their own arm and every larger shade the wildcard |
| `ArbColours.GetR` | src/experiments/arbprecision.rs:62-82 | `getR(x)` as written is the listed red value for `x <= 6` (the first `6` arm for 6), and 0 for every larger byte |
| `ArbColours.GetG` | src/experiments/arbprecision.rs:84-104 | `getG(x)` as written is the listed green value for `x <= 6` (the first `6` arm for 6), and 0 for every larger byte |
| `ArbColours.GetB` | src/experiments/arbprecision.rs:106-126 | `getB(x)` as written is the listed blue value for `x <= 6` (the first `6` arm for 6), and 0 for every larger byte |
| `ArbColours.Colour` | src/experiments/arbprecision.rs:173 | shades 0 to 6 get the listed colours, with the first `6` arm winning (24, 82, 177); every shade from 7 up is black |
| `ArbColours.RepeatedSixArmsUnreachable` | src/experiments/arbprecision.rs:62-126 | the nine `6` arms after the first are never selected, in all three tables |
| `ArbColours.RepeatedKeysBlackenShades` | src/experiments/arbprecision.rs:62-126 | each shade 7 to 15 renders black as written, and differently from the tables with the intended keys |
| `ArbColours.FixedColour` | src/experiments/arbprecision.rs:62-126 | with keys 0 to 15, shade `s` gets palette entry `s` for `s <= 15`, and black above |
| `ArbColours.FixedColourIsShiftedPalette` | src/experiments/arbprecision.rs:62-126 | the corrected table's colour for shade `s` is the main renderer's colour for shade `s + 1` |
| `Escape.EscapeTimeIsFirstExit` | src/main.rs:133-141 | the escape time is at most `iterations`, every earlier check passed, and the loop stopped at the cap or at the first failing check |
| `Escape.EscapeCount` | src/main.rs:133-141 | the kernel's `while` loop returns the number of checks passed before the first failure, capped at `iterations` |
| `Escape.Shade` | src/main.rs:144 | `(i % 16) as u8` is below 16 |
| `Escape.Row` | src/main.rs:125-148 | the row buffer a worker fills has `width` entries, each below 16 |
| `Escape.RowShades` | src/main.rs:125-148 | a row has `width` entries; entry `x` is pixel `(x, y)`'s escape time, itself at most `iterations`, modulo 16, and so below 16 |
| `Worker.Served` | src/main.rs:107-111 | the number of leading indices below the height; the next index, if any, is at or past it |
| `Worker.ComputeRow` | src/main.rs:125-148 | the `for x` loop leaves the reused buffer equal to row `y`'s shades |
| `Worker.RunWorker` | src/main.rs:99-162 | the first message is tag 0 with a zeroed row; then each index below the height is answered by that row tagged with the index, in order; the worker exits exactly when it receives an index at or past the height |
| `Master.Initial` | src/main.rs:45-49 | counters at 0, a zeroed `width` buffer, a black `width` by `height` image |
| `Master.Handle` | src/main.rs:51-78 | one turn of the master's loop keeps the buffer `width` long and the image `width` by `height` |
| `Master.HandleReplies` | src/main.rs:54-66 | a message is answered to its own sender with the current `linesOut`, which then grows by exactly one; a tag-0 message leaves `linesIn` and the image unchanged |
| `Master.HandleCounts` | src/main.rs:54-68 | a handled message raises `linesIn` by one for a non-zero tag and by zero for tag 0, and the master exits exactly when `linesIn >= height - 1` |
| `Master.HandlePaints` | src/main.rs:54-63 | a full-width row tagged `y != 0` repaints image row `y` with its shades through the colour tables; every other row is unchanged |
| `Master.Serve` | src/main.rs:51-79 | the master's `loop` over messages in arrival order keeps the buffer and image shaped and handles at most one message per message received, none after it stops |
| `Master.ServeReplies` | src/main.rs:51-78 | over a run, the k-th message is answered to its sender with `linesOut + k` (0, 1, 2, ... from the start, never repeated, past the height); no reply before the last one exits; messages are left unread only after the master stops |
| `Master.ServeLinesIn` | src/main.rs:54-55 | over a run without fault, `linesIn` equals the number of handled messages with a non-zero tag |
| `Master.ServeExitFlags` | src/main.rs:65-68 | each reply carries the exit flag exactly when the painted-row count so far has reached `height - 1`, so the master stops on exactly that message and after replying to it |
| `Master.ServePaints` | src/main.rs:54-62 | after a run, image row `y` shows the last handled row tagged `y`; rows never sent with a non-zero tag (row 0 always among them) keep their initial pixels |
| `Master.ServeStaysStopped` | src/main.rs:68-78 | once the master has stopped, later messages change nothing |
| `Master.Master.constructor` | src/main.rs:45-49 | the in-place master starts in the state `Initial` |
| `Master.Master.Receive` | src/main.rs:52-78 | receiving into the buffer, painting row `tag` pixel by pixel, replying and incrementing leave the state and outcome that `Handle` gives |
| `Master.Master.PaintRow` | src/main.rs:57-62 | the `for x` loop sets pixel `(x, y)` to the colour of `data[x]` for every column and leaves other rows alone; it fails before any write when the image has columns but no row `y` |
| `Master.Master.Run` | src/main.rs:51-79 | the in-place loop produces the state and outcomes that `Serve` gives |
| `Master.RunMaster` | src/main.rs:27-80 | a fresh master fed the messages gives the outcomes and image of `Serve` from `Initial` |
| `Protocol.Deliver` | src/main.rs:52-65 | one any-source receive: the master takes exactly the named worker's pending message (or none), and no other worker changes; the worker then exits or sends the row it was given |
| `Protocol.Run` | src/main.rs:51-161 | delivering in schedule order appends at most one received message per delivery to the master's log |
| `Protocol.DeliverInv` | src/main.rs:51-162 | every delivery keeps the invariant: no fault; each row index is handed out once, as the number of messages received so far; every painted row is distinct and was handed out earlier; each waiting worker carries its own rank and a full, correctly computed row |
| `Protocol.RunInv` | src/main.rs:51-162 | every system reached from the start by any delivery order satisfies the invariant |
| `Protocol.StoppedHasPaintedEnough` | src/main.rs:68 | a stopped master has painted at least `height - 1` rows |
| `Protocol.Coverage` | src/main.rs:54-68 | when the master stops, every row 1 to `height - 1` has been painted exactly once and row 0 never; the image shows each of those rows as the kernel computes it, and row 0 is black |
| `Protocol.RunCoverage` | src/main.rs:51-161 | for any number of workers and any delivery order: replies are 0, 1, 2, ... to the senders, with no fault; if the master stops, rows 1 to `height - 1` are each painted once with their computed colours, and row 0 stays black |
| `StaticPartition.BandHeight` | src/experiments/arbprecision.rs:35-36 | `imgy = height / size` is the largest band height whose `size` bands fit in the image |
| `StaticPartition.BandLength` | src/experiments/arbprecision.rs:55 | a band of `imgy` rows has `imgx * imgy` entries |
| `StaticPartition.BandPixel` | src/experiments/arbprecision.rs:128-152 | local pixel `(x, y)` sits at `y * imgx + x`, within the buffer, and holds the shade of image pixel `(x, first + y)` |
| `StaticPartition.FillRow` | src/experiments/arbprecision.rs:132-153 | the `for x` loop writes the row's shades at `p`, `p + 1`, ..., leaves the entries before `p` and from `p + width` on unchanged, and advances `p` by `width` |
| `StaticPartition.FillBand` | src/experiments/arbprecision.rs:128-157 | the `for y` loop with the running `p` fills the whole buffer, row-major, with the band's shades |
| `StaticPartition.RenderBand` | src/experiments/arbprecision.rs:55-157 | a rank's buffer has `imgx * imgy` entries and holds image rows `rank * imgy` onward, row-major |
| `StaticPartition.BandFitsBlock` | src/experiments/arbprecision.rs:55-164 | a rank's `imgx * imgy` buffer fits its `width * height / size` block of the gathered table |
| `StaticPartition.Gather` | src/experiments/arbprecision.rs:163-164 | the root's gathered table has `width * height` entries |
| `StaticPartition.GatherPlaces` | src/experiments/arbprecision.rs:163-164 | entry `j` of rank `r`'s buffer lands at `r * (total / size) + j` of the gathered table; the unfilled rest of a block is zero |
| `StaticPartition.GatheredPixel` | src/experiments/arbprecision.rs:163-172 | when `size` divides the height, entry `y * width + x` of the gathered table is pixel `(x, y)`'s shade, for every pixel |
| `StaticPartition.ShiftedGatherExample` | src/experiments/arbprecision.rs:163-172 | with width 2, height 3 and 2 ranks, assembly reads pixel (0, 1)'s shade for pixel (1, 1) and a padding zero for pixel (0, 1), which renders (66, 30, 15) |
| `StaticPartition.ContiguousGather` | src/experiments/arbprecision.rs:163-164 | the bands gathered back to back, `width * imgy` entries per rank, fill a `width * height` table |
| `StaticPartition.ContiguousGatheredPixel` | src/experiments/arbprecision.rs:163-172 | with back-to-back bands and any number of ranks, entry `y * width + x` is pixel (x, y)'s shade for every computed row `y < size * imgy` |
| `StaticPartition.Assemble` | src/experiments/arbprecision.rs:169-175 | every pixel `(x, y)` of the image gets the colour of table entry `y * width + x`, which lies within the `width * height` table |
| `StaticPartition.AssembleRow` | src/experiments/arbprecision.rs:170-174 | the `for x` loop paints row `y` from table entries `y * width + x` and leaves the other rows unchanged |
| `StaticPartition.RenderStatic` | src/experiments/arbprecision.rs:128-175 | compute, gather and assemble paint pixel `(x, y)` from gathered entry `y * width + x`; when `size` divides the height, that is the pixel's own shade |
| `StaticPartition.WrittenRenderBlackens` | src/experiments/arbprecision.rs:169-174 | with the tables as written, a pixel whose escape time modulo 16 is 7 or more is black |
| `StaticPartition.FixedRenderIsPalette` | src/experiments/arbprecision.rs:169-174 | with the keys corrected, a pixel shows palette entry (escape time modulo 16) |

## Left out

- The model follows the code throughout. `linesOut` grows without bound, the exit test is `linesIn >= height - 1`, row 0 is never painted, and the `src/main.rs` tables use keys 1 to 16.
- MPI itself is not modelled: initialisation, any-source receive, sends, gathers and `abort`. Message delivery is a sequence of messages (`Master.Serve`) or a delivery order over the workers (`Protocol.Run`). Each worker has at most one message in flight, and messages are neither lost nor duplicated. `world.abort(0)` is the exit flag of the last reply, and messages after it are never read.
- Concurrency is replaced by an interleaving of one message at a time. The static variant computes the ranks' bands one after another.
- The f64 arithmetic (`scale`, the `x1`/`y1` accumulation, the `zX1`/`zY1` recurrence) and the BigDecimal arithmetic with `with_prec` are replaced by the escape oracle `inside(x, y, i)`.
- `image::ImageBuffer` appears only through its effect as a pixel grid. The PNG `save` and its file name are not modelled.
- `println!` progress lines and `SystemTime` timing are I/O and a clock, so they are left out.
- `Master.Handle`: `linesOut` and `linesIn` are `i32` in the source and are unbounded here, so wrap-around after 2^31 messages is not modelled. Row tags are assumed non-negative.
- `Master.Exits`: with a height of 0, `height - 1` on `usize` underflows. The model takes the release-build result (`usize::MAX as i32 == -1`), not the debug-build panic.
- `Master.Master.Run`: when the messages run out before the master stops, the model returns; the source would block in `receive_into`.
- `Protocol.RunCoverage` states coverage only for a master that has stopped. Whether every delivery order eventually stops it (liveness) is not proved.
- `StaticPartition.RenderStatic` states each pixel's own shade only when `size` divides the height. Otherwise it states the pixel's gathered entry. Rank r's buffer lands at `r * (width * height / size)`, which is the receive count per rank, while assembly reads `y * imgx + x`. So every row from `imgy` on is read from a shifted position (see Findings). A send count that differs from the receive count is erroneous for an MPI gather; the model takes one outcome of it, the unfilled part of each block staying zero.
- The last `height % size` rows are computed by no rank, with or without the corrected gather.
- `width`, `height`, `iterations` and `size` are free parameters. The source hard-codes 8000 by 8000 with 12000 iterations in `src/main.rs`, and 2240 by 2240 with 400 iterations in `src/experiments/arbprecision.rs`.
- The `u32` products `imgx * imgy`, `width * height` and `y * imgx + x` are assumed never to overflow, and row indices are assumed to stay within MPI's tag bound.

## Findings

| source | as written | input that shows it | evidently intended | confidence | as-written member | corrected member |
|---|---|---|---|---|---|---|
| src/experiments/arbprecision.rs:62-126 | the keys of the last nine arms of `getR`, `getG` and `getB` are all `6`, so shades 7 to 15 fall through to `_ => 0` | shade 7: `getR(7) == getG(7) == getB(7) == 0`, black, where the eighth arm lists (57, 125, 209) | keys 0 to 15, one per listed colour, which gives the `src/main.rs` palette shifted by one shade | high, not executed | `ArbColours.RepeatedKeysBlackenShades` | `ArbColours.FixedColour` |
| src/experiments/arbprecision.rs:163-172 | the root receives `width * height / size` entries per rank, but each rank sends only `width * (height / size)`, and assembly reads pixel (x, y) at `y * imgx + x` | width 2, height 3, 2 ranks: pixel (1, 1) shows pixel (0, 1)'s shade, and pixel (0, 1) shows the padding zero as (66, 30, 15) | the bands received back to back, `imgx * imgy` entries per rank, so that every computed row is read where it was written | medium, not executed | `StaticPartition.ShiftedGatherExample` | `StaticPartition.ContiguousGatheredPixel` |
