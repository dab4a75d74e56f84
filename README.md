# wpaperd surface controller, modelled in Dafny

wpaperd draws a wallpaper on the background layer of every output of a
Wayland compositor. `wpaperd/src/surface.rs` is the per-output controller,
and this project models it:

- `Surface::new` creates a background layer surface, sets it to size (0, 0),
  anchors it to all four edges, sets exclusive zone -1 and commits.
- A callback on the layer surface writes compositor notifications into a
  one-slot mailbox (`Rc<Cell<Option<RenderEvent>>>`). A close always lands
  there. A configure is acknowledged and stored unless the slot already
  holds the close.
- `handle_events` drains the slot. It reports a close, or takes the new size
  and asks for a redraw.
- `draw` runs only when a redraw is due (a configure, a new output, or the
  rotation timer expiring) and the width is known. Before any other work it
  clears both redraw flags. Then it resizes the shared-memory pool to
  `4 * width * height` bytes and takes a `width` × `height` Abgr8888 buffer.
  It chooses the image: the path itself, or file `r % n` of the `n` `.jpg`
  files (any letter case) found by walking the directory. It opens the image,
  fills the buffer with it, then attaches, damages the whole buffer and
  commits. It returns the output's display time.
- `update_output` replaces the output in the surface and in its timer and
  forces a redraw.
- Dropping the surface destroys the layer surface first, then the
  `wl_surface`.

Structure:

- `wrappers.dfy`: `Option` and `Result`.
- `protocol.dfy`: `U32`, `I32Max`, and `Effect`, one entry per protocol
  request or other outside step.
- `paths.dfy`: Rust's `Path::extension`, `eq_ignore_ascii_case`, and the
  `.jpg` filter over a directory walk.
- `render_events.dfy`: the callback's rules for the slot, as functions, with
  lemmas about any run of events.
- `surface.dfy`: classes `RenderEventCell` (the shared `Cell`),
  `OutputTimer` (the shared timer, reduced to its output and its `expired`
  flag) and `Surface`. The `Surface` methods append their effects to a ghost
  `trace`. `Draw` and its two stages `AcquireAndPresent` and `Present` are proved
  against the specification function `DrawPass`.
- `draw_properties.dfy`: lemmas about `DrawPass` for every filesystem,
  random number and codec.
- `scenarios.dfy`: client methods that run one surface through the
  controller's typical situations.

Outside inputs are parameters. The filesystem is a `FileSystem` map from
directory to walk result. The random number is `r: nat`. Opening plus
`resize_to_fill` plus `into_rgba8` is one `Renderer` function, which returns
`None` when the image cannot be opened. These panics of `draw` become
`Err(Fault)` results, with the effects made before that point kept in the
trace:

- the missing path (`unwrap` at line 132): `NoPath`;
- the debug-build `i32` overflow of the stride or pool size (lines 134-138):
  `GeometryOverflow`;
- a walk with no `.jpg` file (the `unwrap` at line 153 and the `% 0` at line
  154): `NoJpgFiles`;
- an image that cannot be opened (line 159): `OpenFailed`;
- a raster that does not fit the buffer (`write_all`/`flush`, lines 169-170):
  `CanvasOverflow`.

The remaining `unwrap`s are assumed to succeed: the pool's `resize` and
`buffer`, both `lock()` calls, and a walk that fails on an unreadable
directory. "## Left out" lists them.

In a few places the code does something other than what the intended
behaviour of a wallpaper daemon would suggest. The model follows the code:

- One might expect an empty directory to be an error reported to the
  caller, with the surface retrying on the next tick. The code panics
  (`unwrap`, then `% 0`). The model returns `Err(NoJpgFiles(dir))`, and the
  redraw flags are already cleared at that point.
- One might expect any recognized image extension to be accepted. The code
  accepts only `jpg`, in any ASCII letter case.
- One might expect the need-redraw flag to be cleared after a successful
  draw. The code clears it, and the timer's `expired` flag, before any
  rendering work.
- `draw` returns `Ok(None)` both when it skips and when it draws an output
  that has no display time. The model keeps this return type, and the trace
  tells the two cases apart.

## Model

| member | source | states |
|---|---|---|
| `Paths.EqIgnoreAsciiCase` | wpaperd/src/surface.rs:149 | The match holds exactly when both strings have the same length and agree at every position after ASCII lower-casing. |
| `Paths.LastIndexOf` | wpaperd/src/surface.rs:148 | Last position of a character: absent exactly when the character does not occur; otherwise it holds the character and no later position does (used for file names and extensions). |
| `Paths.FileName` | wpaperd/src/surface.rs:148 | The file name is a suffix of the path with no '/' in it, and a '/' comes right before it when it is shorter than the path. |
| `Paths.NameExtensionSpec` | wpaperd/src/surface.rs:148 | A file name has an extension exactly when it is not ".." and has a '.' after its first character; the extension holds no '.' and is what follows the last '.'. |
| `Paths.JpgTestsAgree` | wpaperd/src/surface.rs:147-150 | For every path, the walk's filter (extension equals "jpg" ignoring ASCII case) holds exactly when the path ends in ".jpg" in any case with at least one file-name character before the dot. |
| `Paths.JpgFiles` | wpaperd/src/surface.rs:146-153 | The filtered file list holds exactly the listed paths that pass the `.jpg` test, and is no longer than the listing. |
| `Paths.JpgFilesCounts` | wpaperd/src/surface.rs:146-153 | The filtered list holds each `.jpg` path exactly as many times as the walk lists it, and no other path. The count `n` of `r % n` is therefore the number of matching walk entries. |
| `Paths.JpgFilesKeepsOrder` | wpaperd/src/surface.rs:146-153 | The filtered list is a subsequence of the walk: the filter keeps the walk's order. |
| `Paths.UpperCaseJpgMatches` | wpaperd/src/surface.rs:149 | "walls/b.JPG" passes the filter: case is ignored. |
| `Paths.HiddenJpgRejected` | wpaperd/src/surface.rs:148-149 | "walls/.jpg" has no extension, so it does not pass the filter. |
| `Paths.JpegRejected` | wpaperd/src/surface.rs:149 | "walls/a.jpeg" does not pass the filter: the comparison is exact up to case. |
| `RenderEvents.ClosedIsTerminal` | wpaperd/src/surface.rs:73-89 | Once the slot holds `Closed`, no run of later events changes it, and no later configure is acknowledged. |
| `RenderEvents.EndsClosedIffClosedArrives` | wpaperd/src/surface.rs:73-89 | After any run of events, the slot holds `Closed` exactly when it held it already or a close event was in the run. |
| `RenderEvents.LatestConfigureWins` | wpaperd/src/surface.rs:77-86 | Without a close, the slot holds the size of the last configure of the run (a reference definition read from the run's end); with no configure it keeps what it held. |
| `RenderEvents.AcksAreConfiguresBeforeClose` | wpaperd/src/surface.rs:77-86 | From a slot that is not `Closed`, the callback acknowledges, in order, the serial of every configure before the first close, and nothing else. |
| `RenderEvents.AcksAfterAllSnoc` | wpaperd/src/surface.rs:77-86 | The acknowledgements of a run extended by one event are those of the run, followed by those the callback makes for that event in the slot the run left. |
| `RenderEvents.TwoConfiguresKeepTheLast` | wpaperd/src/surface.rs:77-86 | Configures (1, 100×100) then (2, 200×200): the slot holds 200×200 and both serials are acknowledged in order. |
| `Surfaces.PickImageSpec` | wpaperd/src/surface.rs:145-157 | A path that is not a directory is used as it is. For a directory, the pick fails exactly when no file passes the `.jpg` filter. Otherwise it returns a file of that directory which passes the filter, at index `r % n` of the `n` filtered files. |
| `Surfaces.Surface.constructor` | wpaperd/src/surface.rs:54-105 | New surface: size (0, 0), no redraw pending, empty slot, the output stored here and in a fresh timer. Trace: get_layer_surface(Background, "example"), set_size(0,0), set_anchor(all four edges), set_exclusive_zone(-1), then commit. |
| `Surfaces.Surface.OnLayerEvent` | wpaperd/src/surface.rs:72-90 | The callback: the slot becomes `SlotAfter(old slot, event)`, and the trace gains `ack_configure(serial)` exactly when a configure is stored. |
| `Surfaces.Surface.HandleEvents` | wpaperd/src/surface.rs:110-120 | The slot is empty afterwards. The result is true exactly when the slot held `Closed`. A stored configure sets the dimensions and `need_redraw`; otherwise both are unchanged. |
| `Surfaces.Surface.Draw` | wpaperd/src/surface.rs:122-131 | Unless a redraw is due and the width is non-zero, returns `Ok(None)` and changes nothing (flags and trace included). Otherwise both flags end false, the trace gains exactly `DrawPass(...).effects` and the result is `DrawPass(...).result`. |
| `Surfaces.Surface.AcquireAndPresent` | wpaperd/src/surface.rs:132-157 | The middle of `draw` appends exactly the pool requests, the directory walk and the rest of the pass that `AcquireAndShow` describes, and returns its result. |
| `Surfaces.Surface.Present` | wpaperd/src/surface.rs:159-180 | The end of `draw` appends exactly the open, copy, attach, damage and commit that `ShowImage` describes, and returns its result. |
| `Surfaces.Surface.UpdateOutput` | wpaperd/src/surface.rs:183-191 | The surface and its timer both hold the new output, and a redraw is pending. |
| `Surfaces.Surface.Destroy` | wpaperd/src/surface.rs:194-198 | The trace gains destroy of the layer surface, then destroy of the surface, in that order. |
| `DrawProperties.FlagsClearedFirst` | wpaperd/src/surface.rs:123-130 | In every pass, clearing the redraw flags is the first effect and happens once, before any pool, file or surface effect. |
| `DrawProperties.PoolGeometry` | wpaperd/src/surface.rs:134-143 | Any pool resize asks for exactly 4·width·height bytes, within i32. Any buffer request is (width, height, stride 4·width, Abgr8888). When the path and geometry are fine, these are the 2nd and 3rd effects. |
| `DrawProperties.SubmissionOrder` | wpaperd/src/surface.rs:172-180 | A successful pass ends with attach(buffer, 0, 0), damage_buffer(0, 0, width, height), commit, in that order, with none of these earlier. It returns the output's `time`. |
| `DrawProperties.FaultSubmitsNothing` | wpaperd/src/surface.rs:132-170 | A pass that stops with a fault has made no attach, damage or commit. |
| `DrawProperties.ShowsPickedImage` | wpaperd/src/surface.rs:145-159 | A successful pass opens one image, once: the one `PickImage` chooses. |
| `DrawProperties.DirectoryWalkedEveryPass` | wpaperd/src/surface.rs:145-153 | For a directory, every pass that gets past the geometry walks the directory afresh; there is no cached list. |
| `DrawProperties.Faults` | wpaperd/src/surface.rs:132-170 | Each fault happens exactly at its step: no path; geometry beyond i32; no `.jpg` file in the directory; image that cannot be opened; raster larger than the buffer. |
| `DrawProperties.ExactRasterIsShown` | wpaperd/src/surface.rs:159-170 | If the codec returns exactly width·height four-byte pixels, a pass whose path and image are available succeeds, and the bytes copied fill the pool exactly. |
| `Scenarios.TwoConfiguresOneRedraw` | wpaperd/src/surface.rs:77-130 | Configures of 100×100 then 200×200 before the poll: the size becomes 200×200, the first draw returns the output's time and the second draw is skipped. |
| `Scenarios.ConfigureAfterClose` | wpaperd/src/surface.rs:73-127 | A configure after a close is ignored: `handle_events` reports the drop and the size stays (0, 0). A draw with the timer expired is skipped and returns `Ok(None)`; a pass would have returned the output's time 10. |
| `Scenarios.NewOutputForcesRedraw` | wpaperd/src/surface.rs:122-191 | The first draw after a configure returns the output's time 10. A second draw returns `Ok(None)`: it is skipped, since a pass would return 10. A new directory output then redraws the surface without the timer expiring and returns the new time 60. The image opened is the one `.jpg` file of the new directory. |
| `Scenarios.EmptyDirectory` | wpaperd/src/surface.rs:145-154 | A directory without `.jpg` files (a hidden ".jpg" does not count) stops the draw with `NoJpgFiles`, and the redraw flag is already cleared. |
| `Scenarios.DeliverThenHandle` | wpaperd/src/surface.rs:72-120 | For any run of delivered events, `handle_events` reports a drop exactly when a close arrived. Otherwise the size is that of the last configure, or (0, 0) when none came. The acknowledgements the surface sent after its setup are those of every configure before the first close, in order. |

## Left out

- Wayland objects and transport (`WlSurface`, `ZwlrLayerSurfaceV1`, `Attached`, `Main`, dispatch through `quick_assign`): these are foreign calls. They appear only as trace entries. Registering the callback is not an entry, and the callback is the `OnLayerEvent` method.
- The `info: OutputInfo` field: not used by the modelled operations.
- Opening, decoding and `resize_to_fill` with Lanczos3: a library call with floating-point resampling. It is the `Renderer` parameter. That its result has exactly width·height pixels is a hypothesis of `ExactRasterIsShown`, not proved.
- `AutoMemPool`: `resize` and `buffer` are assumed to succeed (their `unwrap` failures are not modelled). Only the sizes requested are recorded. Buffer contents and the reuse of memory still in flight are not modelled.
- `BufWriter` copying: recorded as one `WriteCanvas` of the raster's bytes. A raster longer than the buffer is the `CanvasOverflow` fault.
- `Dowser` walking and `rand::random`: the walk result is given per directory in `FileSystem`, and the random number is `r`. A directory that cannot be read is not modelled. An empty walk result (a `try_from` error or `% 0`) is the single fault `NoJpgFiles`.
- `Arc<Mutex<OutputTimer>>`: the timer is a plain object whose `expired` field anyone may set. A poisoned lock is not modelled.
- `wpaperd/src/output_timer.rs` is not part of this model. The model's timer holds only its output and `expired`. It is assumed to start not expired, and its `update_output` only replaces the output.
- `wpaperd/src/output.rs` is not part of this model. An output is reduced to its optional path and optional display time.
- `i32` casts: `Draw` models the debug-build overflow panic as `GeometryOverflow` (stride or pool size above `i32::MAX`). Release-build wrap-around is not modelled. A width or height of 2^31 or more, which `as i32` turns into a negative number before any multiplication, falls in the same fault. The model does not follow the negative values into the pool.
- Panics: in the source they end the process. The model returns `Err(fault)` instead and keeps the state reached up to that point.
- Paths: a file name is what follows the last '/'. Trailing separators and `.` components are not normalised, and characters stand for the bytes of `OsStr`. An ASCII-only comparison against "jpg" gives the same answer either way.
