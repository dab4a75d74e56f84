/**
 * The per-output wallpaper surface controller: setup of the layer surface,
 * the callback that fills the render-event slot, event reconciliation, the
 * draw pass and teardown. Protocol requests and the other steps with an
 * outside effect are appended to a ghost trace in the order they happen.
 */
module Surfaces {
  import opened Wrappers
  import opened Protocol
  import opened Paths
  import opened RenderEvents

  /** The configured source of wallpapers: an image or a directory of images, and how long each stays. */
  datatype Output = Output(path: Option<Path>, time: Option<U32>)

  /**
   * What the filesystem looks like during a draw: the paths that are
   * directories, each with the files a recursive walk of it yields, in walk order.
   */
  datatype FileSystem = FileSystem(dirs: map<Path, seq<Path>>)

  /**
   * Opening the chosen image and resizing it to fill the given width and
   * height, then taking its RGBA bytes; `None` when the image cannot be opened.
   */
  type Renderer = (Path, nat, nat) -> Option<seq<bv8>>

  /** The points where a draw stops with a panic. */
  datatype Fault =
    | NoPath                  // the output has no path
    | GeometryOverflow        // stride or pool size does not fit in an i32
    | NoJpgFiles(dir: Path)   // the directory holds no .jpg file
    | OpenFailed(path: Path)  // the chosen image cannot be opened
    | CanvasOverflow          // the raster is larger than the pool buffer

  /** Bytes per row of a buffer: four bytes per pixel. */
  function Stride(width: nat): nat
  {
    4 * width
  }

  /** Bytes the pool is resized to: one stride per row. */
  function PoolSize(width: nat, height: nat): nat
  {
    Stride(width) * height
  }

  /** The buffer geometry passes through the source's `i32` arithmetic without overflow. */
  predicate GeometryFits(width: nat, height: nat)
  {
    Stride(width) <= I32Max && PoolSize(width, height) <= I32Max
  }

  /** The redraw gate: something asks for a redraw and the surface has a width. */
  predicate RedrawDue(needRedraw: bool, expired: bool, width: nat)
  {
    (needRedraw || expired) && width != 0
  }

  /**
   * The image a draw shows: for a directory, entry `r % n` of its `n` `.jpg`
   * files; for any other path, the path itself.
   */
  function PickImage(path: Path, fs: FileSystem, r: nat): Result<Path, Fault>
  {
    if path in fs.dirs then
      var files := JpgFiles(fs.dirs[path]);
      if |files| == 0 then Err(NoJpgFiles(path)) else Ok(files[r % |files|])
    else Ok(path)
  }

  /**
   * A path that is not a directory is shown as it is. For a directory the
   * pick fails exactly when no `.jpg` file is in it; otherwise it is a
   * `.jpg` file of the directory, at index `r % n` of the `n` such files.
   */
  lemma PickImageSpec(path: Path, fs: FileSystem, r: nat)
    ensures path !in fs.dirs ==> PickImage(path, fs, r) == Ok(path)
    ensures path in fs.dirs ==>
      (PickImage(path, fs, r).Ok? <==> exists p :: p in fs.dirs[path] && HasJpgExtension(p))
    ensures path in fs.dirs && PickImage(path, fs, r).Ok? ==>
      var image := PickImage(path, fs, r).value;
      var files := JpgFiles(fs.dirs[path]);
      && image in fs.dirs[path] && HasJpgExtension(image)
      && |files| > 0 && image == files[r % |files|]
    ensures PickImage(path, fs, r).Err? ==> PickImage(path, fs, r).error == NoJpgFiles(path)
  {
    if path in fs.dirs {
      var files := JpgFiles(fs.dirs[path]);
      if |files| > 0 {
        var image := files[r % |files|];
        assert image in files;
        JpgTestsAgree(image);
      }
      forall p | p in fs.dirs[path] && HasJpgExtension(p) ensures p in files {
        JpgTestsAgree(p);
      }
    }
  }

  /** The protocol requests `Surface::new` makes, in order. */
  function SetupEffects(): seq<Effect>
  {
    [ GetLayerSurface(Background, "example"),
      SetSize(0, 0),
      SetAnchor({Top, Left, Right, Bottom}),
      SetExclusiveZone(-1),
      Commit ]
  }

  /** What a draw that passed the gate does, and what it returns. */
  datatype Pass = Pass(effects: seq<Effect>, result: Result<Option<U32>, Fault>)

  /** A pass that starts with the given effects. */
  function After(prefix: seq<Effect>, rest: Pass): Pass
  {
    Pass(prefix + rest.effects, rest.result)
  }

  /**
   * The draw pass after the gate: clear the redraw flags, check the path and
   * the geometry, then acquire a buffer and show the image. A step that
   * panics ends the pass with the effects made so far.
   */
  function DrawPass(output: Output, width: U32, height: U32, fs: FileSystem, r: nat, render: Renderer): Pass
  {
    var claimed := [ClearRedrawFlags];
    match output.path
    case None => Pass(claimed, Err(NoPath))
    case Some(path) =>
      if !GeometryFits(width, height) then Pass(claimed, Err(GeometryOverflow))
      else After(claimed, AcquireAndShow(path, width, height, fs, r, render, output.time))
  }

  /**
   * Resize the pool and take a buffer of the surface's size, choose the
   * image (walking the directory afresh when the path is one), then show it.
   */
  function AcquireAndShow(path: Path, width: nat, height: nat, fs: FileSystem, r: nat, render: Renderer, time: Option<U32>): Pass
  {
    var buffer := Buffer(width, height, Stride(width), Abgr8888);
    var acquired := [PoolResize(PoolSize(width, height)), PoolBuffer(buffer)];
    var walked := acquired + (if path in fs.dirs then [WalkDirectory(path)] else []);
    match PickImage(path, fs, r)
    case Err(fault) => Pass(walked, Err(fault))
    case Ok(image) => After(walked, ShowImage(image, buffer, render, time))
  }

  /**
   * The rest of a pass once the image is chosen: open it, copy its bytes
   * into the buffer, then attach, damage and commit.
   */
  function ShowImage(image: Path, buffer: Buffer, render: Renderer, time: Option<U32>): Pass
    requires buffer.width >= 0 && buffer.height >= 0
  {
    var loaded := [OpenImage(image)];
    match render(image, buffer.width, buffer.height)
    case None => Pass(loaded, Err(OpenFailed(image)))
    case Some(pixels) =>
      var written := loaded + [WriteCanvas(pixels)];
      if |pixels| > buffer.stride * buffer.height then Pass(written, Err(CanvasOverflow))
      else Pass(written + [Attach(buffer, 0, 0), DamageBuffer(0, 0, buffer.width, buffer.height), Commit], Ok(time))
  }

  /** The shared `Cell<Option<RenderEvent>>` that the callback writes and the render pass drains. */
  class RenderEventCell {
    var value: Option<RenderEvent>

    constructor ()
      ensures value == None
    {
      value := None;
    }

    /** `Cell::set`. */
    method Set(v: Option<RenderEvent>)
      modifies this
      ensures value == v
    {
      value := v;
    }

    /** `Cell::take`: the held value, leaving the cell empty. */
    method Take() returns (v: Option<RenderEvent>)
      modifies this
      ensures v == old(value) && value == None
    {
      v := value;
      value := None;
    }
  }

  /**
   * The per-output rotation timer, reduced to what the surface uses: the
   * output it follows and the `expired` flag an outside scheduler sets.
   */
  class OutputTimer {
    var output: Output
    var expired: bool

    constructor (output: Output)
      ensures this.output == output && !expired
    {
      this.output := output;
      expired := false;
    }

    /** Follow a new output. */
    method UpdateOutput(output: Output)
      modifies this`output
      ensures this.output == output
    {
      this.output := output;
    }
  }

  class Surface {
    /** The slot shared with the layer-surface callback. */
    const cell: RenderEventCell
    const timer: OutputTimer
    var dimensions: (U32, U32)
    var output: Output
    var needRedraw: bool
    /** Every effect so far, oldest first. */
    ghost var trace: seq<Effect>
    /** Set by `Destroy`; Rust's ownership forbids any use after the drop. */
    ghost var dropped: bool

    /** The surface and its timer follow the same output, and setup came first. */
    ghost predicate Valid()
      reads this, timer
    {
      && timer.output == output
      && |SetupEffects()| <= |trace|
      && trace[..|SetupEffects()|] == SetupEffects()
    }

    /** `Surface::new`: configure the layer surface, register the callback and commit. */
    constructor (output: Output)
      ensures Valid() && !dropped
      ensures fresh(cell) && fresh(timer)
      ensures dimensions == (0, 0) && !needRedraw && cell.value == None
      ensures this.output == output && !timer.expired
      ensures trace == SetupEffects()
    {
      trace := [GetLayerSurface(Background, "example")];
      trace := trace + [SetSize(0, 0)];
      trace := trace + [SetAnchor({Top, Left, Right, Bottom})];
      trace := trace + [SetExclusiveZone(-1)];
      cell := new RenderEventCell();
      trace := trace + [Commit];
      dimensions := (0, 0);
      needRedraw := false;
      this.output := output;
      timer := new OutputTimer(output);
      dropped := false;
    }

    /**
     * The layer-surface callback: a close always lands in the slot; a
     * configure is acknowledged and stored unless the slot already holds
     * `Closed`; anything else is ignored.
     */
    method OnLayerEvent(ev: LayerEvent)
      requires Valid() && !dropped
      modifies this`trace, cell
      ensures Valid()
      ensures cell.value == SlotAfter(old(cell.value), ev)
      ensures trace == old(trace) + AcksFor(old(cell.value), ev)
    {
      var next := cell.value;
      match ev {
        case ClosedEvent =>
          cell.Set(Some(Closed));
        case ConfigureEvent(serial, width, height) =>
          if next != Some(Closed) {
            trace := trace + [AckConfigure(serial)];
            cell.Set(Some(Configure(width, height)));
          }
        case OtherEvent =>
      }
    }

    /**
     * `handle_events`: drain the slot; report a close, or take on the new
     * dimensions and ask for a redraw. Returns whether the surface must be dropped.
     */
    method HandleEvents() returns (shouldDrop: bool)
      requires Valid() && !dropped
      modifies this`dimensions, this`needRedraw, cell
      ensures Valid()
      ensures cell.value == None
      ensures shouldDrop <==> old(cell.value) == Some(Closed)
      ensures old(cell.value).Some? && old(cell.value).value.Configure? ==>
        dimensions == (old(cell.value).value.width, old(cell.value).value.height) && needRedraw
      ensures !(old(cell.value).Some? && old(cell.value).value.Configure?) ==>
        dimensions == old(dimensions) && needRedraw == old(needRedraw)
    {
      var event := cell.Take();
      match event {
        case Some(Closed) =>
          shouldDrop := true;
        case Some(Configure(width, height)) =>
          dimensions := (width, height);
          needRedraw := true;
          shouldDrop := false;
        case None =>
          shouldDrop := false;
      }
    }

    /**
     * `draw`: skip unless a redraw is due and the width is known; otherwise
     * clear both redraw flags first and run the pass. `fs` is the
     * filesystem, `r` the random number, `render` the image codec.
     */
    method Draw(fs: FileSystem, r: nat, render: Renderer) returns (res: Result<Option<U32>, Fault>)
      requires Valid() && !dropped
      modifies this`needRedraw, this`trace, timer`expired
      ensures Valid()
      ensures !RedrawDue(old(needRedraw), old(timer.expired), dimensions.0) ==>
        res == Ok(None) && needRedraw == old(needRedraw) && timer.expired == old(timer.expired) && trace == old(trace)
      ensures RedrawDue(old(needRedraw), old(timer.expired), dimensions.0) ==>
        !needRedraw && !timer.expired
        && var pass := DrawPass(output, dimensions.0, dimensions.1, fs, r, render);
           trace == old(trace) + pass.effects && res == pass.result
    {
      if !(needRedraw || timer.expired) || dimensions.0 == 0 {
        return Ok(None);
      }
      timer.expired := false;
      needRedraw := false;
      trace := trace + [ClearRedrawFlags];

      if output.path.None? {
        return Err(NoPath);
      }
      var path := output.path.value;
      var width, height := dimensions.0, dimensions.1;
      if !GeometryFits(width, height) {
        return Err(GeometryOverflow);
      }
      res := AcquireAndPresent(path, width, height, fs, r, render, output.time);
    }

    /** The middle of `draw`: resize the pool, take a buffer, choose the image and present it. */
    method AcquireAndPresent(path: Path, width: nat, height: nat, fs: FileSystem, r: nat, render: Renderer, time: Option<U32>)
      returns (res: Result<Option<U32>, Fault>)
      requires Valid()
      modifies this`trace
      ensures Valid()
      ensures trace == old(trace) + AcquireAndShow(path, width, height, fs, r, render, time).effects
      ensures res == AcquireAndShow(path, width, height, fs, r, render, time).result
    {
      var stride := Stride(width);
      trace := trace + [PoolResize(stride * height)];
      var buffer := Buffer(width, height, stride, Abgr8888);
      trace := trace + [PoolBuffer(buffer)];
      if path in fs.dirs {
        trace := trace + [WalkDirectory(path)];
      }
      var picked := PickImage(path, fs, r);
      if picked.Err? {
        return Err(picked.error);
      }
      res := Present(picked.value, buffer, render, time);
    }

    /** The end of `draw`: open the chosen image, copy it into the buffer, attach, damage and commit. */
    method Present(image: Path, buffer: Buffer, render: Renderer, time: Option<U32>) returns (res: Result<Option<U32>, Fault>)
      requires Valid() && buffer.width >= 0 && buffer.height >= 0
      modifies this`trace
      ensures Valid()
      ensures trace == old(trace) + ShowImage(image, buffer, render, time).effects
      ensures res == ShowImage(image, buffer, render, time).result
    {
      trace := trace + [OpenImage(image)];
      var raster := render(image, buffer.width, buffer.height);
      if raster.None? {
        return Err(OpenFailed(image));
      }
      var pixels := raster.value;
      trace := trace + [WriteCanvas(pixels)];
      if |pixels| > buffer.stride * buffer.height {
        return Err(CanvasOverflow);
      }
      trace := trace + [Attach(buffer, 0, 0)];
      trace := trace + [DamageBuffer(0, 0, buffer.width, buffer.height)];
      trace := trace + [Commit];
      res := Ok(time);
    }

    /** `update_output`: follow a new output here and in the timer, and force the next draw. */
    method UpdateOutput(output: Output)
      requires Valid() && !dropped
      modifies this`output, this`needRedraw, timer`output
      ensures Valid()
      ensures this.output == output && timer.output == output && needRedraw
    {
      this.output := output;
      timer.UpdateOutput(this.output);
      needRedraw := true;
    }

    /** `Drop`: destroy the layer surface, then the surface beneath it. */
    method Destroy()
      requires Valid() && !dropped
      modifies this`trace, this`dropped
      ensures Valid() && dropped
      ensures trace == old(trace) + [DestroyLayerSurface, DestroySurface]
    {
      trace := trace + [DestroyLayerSurface];
      trace := trace + [DestroySurface];
      dropped := true;
    }
  }
}
