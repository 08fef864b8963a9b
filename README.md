# Animation: a verified model of the frame fill and encode loop

Animation renders 3000 frames of a time-varying complex function, colours each
pixel by the argument of the function's value, and streams the frames through
an H.264 encoder into a file. This project models the integer and state-machine
core of `Animation/Animation.c` in Dafny and proves its contracts:

- **Colour table** (`color_table.dfy`, module `ColorTable`): the `switch` of
  `color` on the integer sector `(int)hs`. The ramp byte `255 * x` is a
  parameter. There is no `default:` case, so a sector outside 0..6 makes the C
  function fall off its end with an undefined result. The model returns `None`
  for those sectors.
- **Frame fill** (`render.dfy`, module `Render`): `prepare_frame_thread`,
  `prepare_frame` and `prepare_frame_multithreaded` over a `Frame` class (the
  AVFrame: `width`, `height`, `linesize`, a byte array and `pts`). The per-pixel
  colour (the pixel-to-complex mapping, the complex formula and `color`) is a
  function parameter `shade(x, y, i)`. `Paint` defines, byte by byte, what a
  buffer holds after a set of pixels has been painted. Every fill method is
  proved to leave exactly `Paint(old buffer, ...)`. So the twelve workers, run in
  any order, produce the same buffer as the column-major single-threaded fill.
- **Encode** (`encoding.dfy`, module `Encoding`): `encode` sends a frame or the
  NULL flush marker, stops on a negative send result, then receives until EAGAIN
  or EOF. Each packet's bytes are appended to the output file, and any other
  negative result stops the loop. The encoder is an external capability. It is
  modelled by the replies it gives: a script of send results and a script of
  receive outcomes `Packet(p) | Again | Eof | Err`. A used-up script
  accepts every send (0) and reports EAGAIN. `Drain` is the reference
  definition of the receive loop.
- **Main schedule** (`animation.dfy`, module `Animation`): frames with pts
  0..2999, each rendered by the twelve workers and then encoded, followed by
  exactly one flush. `exit(1)` is modelled as `encode` returning a failure
  status, after which the schedule stops at once.

Three things the code does that a reader might not expect:
- The code does not clamp the sector: there is no default case. The model keeps
  the sector table partial.
- The code writes raw packets with `fwrite` to an elementary-stream file. It
  has no muxer, header, trailer or timestamp rescaling.
- The code's drain after the flush also stops on EAGAIN, not only on EOF.

## Model

| member | source | states |
|---|---|---|
| `ColorTable.SectorColor` | Animation/Animation.c:103-139 | defined exactly for sectors 0..6; sectors 0..5 give one channel 255, one 0 and the third equal to the ramp byte; sector 6 gives (255, 0, 0) |
| `ColorTable.EdgeRamp` | Animation/Animation.c:99-100 | the limit value of the ramp byte `255 * x`, with x = 1 - abs(fmod(hs, 2) - 1), at a whole hue position hs: sector at the start of a sector, sector + 1 at its end; so it is 255 at the start of odd sectors and at the end of even ones, and 0 otherwise |
| `ColorTable.SectorEdgesMeet` | Animation/Animation.c:101-133 | with the ramp at its limit values, the colour at the end of sector k equals the colour at the start of sector k+1, for k = 0..5, so the table has no jumps between sectors |
| `ColorTable.FullTurnIsSectorZero` | Animation/Animation.c:104-108 | sector 6 gives the colour of the start of sector 0, for every ramp byte |
| `Render.Frame.constructor` | Animation/Animation.c:318-331 | a fresh frame whose buffer holds `linesize` bytes for each row, with 4*width <= linesize |
| `Render.Paint` | Animation/Animation.c:201-204 | the reference buffer after painting a pixel set keeps the buffer's length; what each byte holds is stated by `PaintAt`, `PaintKeepsFourthByte`, `PaintKeepsPadding` and `PaintKeepsTail` |
| `Render.OffsetDecodes` | Animation/Animation.c:201 | byte c of pixel (x, y), at linesize*y + 4*x + c, lies in row y at column 4*x + c |
| `Render.PixelSlotsDisjoint` | Animation/Animation.c:201-204 | distinct pixels own disjoint four-byte slots when linesize >= 4*width |
| `Render.PaintAt` | Animation/Animation.c:200-204 | after painting, bytes 0, 1, 2 of a painted pixel hold r, g, b of its colour; an unpainted pixel keeps its bytes |
| `Render.PaintKeepsFourthByte` | Animation/Animation.c:201-204 | byte linesize*y + 4*x + 3 of every pixel is never modified |
| `Render.PaintKeepsPadding` | Animation/Animation.c:195-204 | the row padding, columns 4*width .. linesize-1, is never modified |
| `Render.PaintKeepsTail` | Animation/Animation.c:194-204 | the bytes after the last row, from linesize*height on, are never modified |
| `Render.WorkerKeepsOtherRows` | Animation/Animation.c:194-206 | a worker leaves every byte of every row it does not own unchanged |
| `Render.PaintCompose` | Animation/Animation.c:217-221 | painting two pixel sets one after the other, in either order, equals painting their union |
| `Render.PaintOverwrites` | Animation/Animation.c:347-351 | repainting all pixels with a later frame's colours erases the earlier frame |
| `Render.PaintStep` | Animation/Animation.c:201-204 | storing the three colour bytes of one pixel adds exactly that pixel to the painted set |
| `Render.WorkerRowsExact` | Animation/Animation.c:194 | the rows the `for` loop of worker id visits are exactly the y < height with y % 12 == id, in increasing order |
| `Render.WorkerRowsPartition` | Animation/Animation.c:194 | each row 0 <= y < height is visited by exactly one worker, the one with id == y % 12; so worker rows are disjoint and cover the frame |
| `Render.StorePixel` | Animation/Animation.c:201-204 | the three stores change exactly bytes linesize*y + 4*x + 0, 1, 2, to r, g, b |
| `Render.PrepareFrameThread` | Animation/Animation.c:184-207 | the rows visited are exactly `VisitedRows(id, height)`, and the buffer afterwards is the old buffer with exactly worker id's rows painted |
| `Render.PrepareFrame` | Animation/Animation.c:225-246 | the column-major fill leaves the old buffer with every pixel painted |
| `Render.SpawnOrder` | Animation/Animation.c:217-219 | the start order 0..11 is a valid worker order |
| `Render.PrepareFrameMultithreaded` | Animation/Animation.c:211-223 | the twelve workers, in any order, leave exactly the buffer that `PrepareFrame` leaves |
| `Encoding.Encoder.constructor` | Animation/Animation.c:273 | a fresh encoder has seen no submission and will give the given replies |
| `Encoding.Encoder.SendFrame` | Animation/Animation.c:152 | records the frame (pts and pixel bytes) or the flush marker, and returns the next send reply |
| `Encoding.Encoder.ReceivePacket` | Animation/Animation.c:159 | returns the next receive outcome and consumes it |
| `Encoding.OutputFile.constructor` | Animation/Animation.c:312 | the output file starts empty |
| `Encoding.OutputFile.Write` | Animation/Animation.c:168 | fwrite appends the packet's bytes to the file |
| `Encoding.PayloadAppend` | Animation/Animation.c:168 | the file bytes of two runs of packets are the bytes of the first run followed by those of the second |
| `Encoding.DrainWritesLeadingPackets` | Animation/Animation.c:158-170 | the drain writes the leading packets of the outcome script in order, stops at the first non-packet, fails exactly when that outcome is an error, and consumes one reply past the packets |
| `Encoding.DrainStopsAt` | Animation/Animation.c:158-170 | a script of packets ps, then a non-packet, then anything, drains exactly ps and fails exactly when the stop is an error |
| `Encoding.ReceivePackets` | Animation/Animation.c:158-170 | the receive loop appends the drained packets' bytes to the file, and reports failure exactly as `Drain` does; on failure the earlier packets stay written |
| `Encoding.Encode` | Animation/Animation.c:143-171 | a negative send result stops before any receive, leaving the file and the receive script untouched; otherwise the drain's packets are appended and the status is the drain's |
| `Animation.FrameSubmissionsAt` | Animation/Animation.c:334-358 | the k-th submission of the frame loop is frame k, with pts k and frame k's complete rendering |
| `Animation.ScheduleOrder` | Animation/Animation.c:334-361 | main submits pts 0..2999 in strictly increasing order, each with its full rendering, then exactly one flush, after the last frame |
| `Animation.RenderedOver` | Animation/Animation.c:347-353 | rendering frame i over frame i-1 (or over the initial buffer) gives frame i's complete rendering |
| `Animation.PrefixOfSchedule` | Animation/Animation.c:334-358 | the submissions of the first n frames are a prefix of the schedule |
| `Animation.EncodeAnimation` | Animation/Animation.c:333-361 | the encoder sees a prefix of the schedule; on success it sees exactly the schedule; the output file only grows |

## Left out

- Floating-point code: the complex arithmetic (`complex_len`, `complex_arg`, `from_polar`, `complex_add`/`sub`/`mul`/`div`/`pow`/`exp`), the pixel-to-complex mapping and the formula (lines 50-91, 187-199). Dafny has no IEEE doubles. These become the colour parameter `shade`.
- The derivation of `hs` and `x` inside `color` (lines 100-101), including the conversions `(int)hs` and `255 * x` to `uint8_t`. They are floating point. The model takes the sector and the ramp byte as inputs.
- Threads: `_beginthread` and `WaitForMultipleObjects` (lines 219-221). The join becomes running the twelve worker bodies one after another in a given order. Because their rows are disjoint, any order stands for any interleaving.
- The join is taken to really wait for all twelve workers. In the code, `_beginthread` closes its thread handle when the thread exits, and the result of `WaitForMultipleObjects` is ignored (lines 219-221). So the wait may return early, and `free(params)` and `encode` could then race the remaining workers. The model does not capture that race.
- The exit when `malloc` of the worker parameters fails (lines 213-216). Memory exhaustion is not modelled.
- libavcodec internals and setup: codec lookup, context and packet allocation failures, option setting, `avcodec_open2`, the error paths of `av_frame_alloc` and `av_frame_get_buffer` (lines 267-331). These are foreign calls. The encoder's answers are scripted inputs instead.
- `av_frame_make_writable` (lines 347-350). It may swap in a fresh copy of the buffer. The model keeps one buffer, so the copy-on-write step and its failure exit are not captured.
- printf, fflush, the usage message for a missing argument, the failure to open the file, the MPEG end-code write, fclose and the frees (lines 259-262, 312-316, 363-375). These are I/O and resource plumbing.
- `av_packet_unref` and the packet object (line 169). Packets are values here.
- `get_color` (lines 173-176). It is an unused stub.
- Integer widths: the C `int` index `linesize*y + x*4` and the loop counters are unbounded integers in the model. For 2560x1440 frames the C values fit in 32 bits.
- ColorTable.SectorEdgesMeet: the lemma is about the limit values 0 and 255 of the ramp. The code stores `255 * x` truncated to `uint8_t`. Just before the end of sectors 0, 2 and 4, x is below 1, so the stored ramp is at most 254. The code's colour therefore steps by one unit at those edges.
- ColorTable.EdgeRamp: gives the ramp only at whole hue positions, as a limit. The truncated values inside a sector are not modelled.
- `Animation.EncodeAnimation`: on a failure it states only that the submissions are a non-empty prefix of the schedule. It does not name which encode failed.
- Animation.EncodeAnimation: the contents of the output file are not tied to the encoder's scripts across the 3001 encode calls. Only growth is stated; each single call's effect on the file is stated by `Encode`.
- Encoding.Encoder: the real encoder's internal lookahead is not modelled, only its replies. An exhausted script stands for an encoder that accepts and has nothing ready.
