/**
 * What every draw pass does, whatever the filesystem, the random number and
 * the image codec: the order of its effects, the buffer geometry it asks
 * for, the image it shows and the ways it can stop.
 */
module DrawProperties {
  import opened Wrappers
  import opened Protocol
  import opened Paths
  import opened Surfaces

  /** The buffer a surface of this size is drawn into. */
  function SurfaceBuffer(width: nat, height: nat): Buffer
  {
    Buffer(width, height, Stride(width), Abgr8888)
  }

  predicate IsSubmission(e: Effect)
  {
    e.Attach? || e.DamageBuffer? || e.Commit?
  }

  /** The redraw flags are cleared first, before any pool, file or surface effect, and only once. */
  lemma FlagsClearedFirst(output: Output, width: U32, height: U32, fs: FileSystem, r: nat, render: Renderer)
    ensures var p := DrawPass(output, width, height, fs, r, render);
      && |p.effects| > 0 && p.effects[0] == ClearRedrawFlags
      && forall i :: 0 < i < |p.effects| ==> p.effects[i] != ClearRedrawFlags
  {
  }

  /**
   * The pool is only touched when the geometry fits an `i32`, then resized to
   * exactly `4 * width * height` bytes and asked for one buffer of
   * `width` by `height` pixels, stride `4 * width`, format Abgr8888, both
   * right after the flags are cleared.
   */
  lemma PoolGeometry(output: Output, width: U32, height: U32, fs: FileSystem, r: nat, render: Renderer)
    ensures var p := DrawPass(output, width, height, fs, r, render);
      && (forall i :: 0 <= i < |p.effects| && p.effects[i].PoolResize? ==>
            p.effects[i].bytes == 4 * width * height && p.effects[i].bytes <= I32Max)
      && (forall i :: 0 <= i < |p.effects| && p.effects[i].PoolBuffer? ==>
            p.effects[i].buffer == Buffer(width, height, 4 * width, Abgr8888))
    ensures var p := DrawPass(output, width, height, fs, r, render);
      output.path.Some? && GeometryFits(width, height) ==>
        && |p.effects| >= 3
        && p.effects[1] == PoolResize(4 * width * height)
        && p.effects[2] == PoolBuffer(Buffer(width, height, 4 * width, Abgr8888))
  {
    var p := DrawPass(output, width, height, fs, r, render);
    if output.path.Some? && GeometryFits(width, height) {
      var path := output.path.value;
      var a := AcquireAndShow(path, width, height, fs, r, render, output.time);
      assert a.effects[..2] == [PoolResize(PoolSize(width, height)), PoolBuffer(SurfaceBuffer(width, height))];
      assert p.effects == [ClearRedrawFlags] + a.effects;
      forall i | 0 <= i < |p.effects| && (p.effects[i].PoolResize? || p.effects[i].PoolBuffer?)
        ensures i == 1 || i == 2
      {
        assert p.effects[i] == a.effects[i - 1];
      }
    }
  }

  /**
   * A pass that succeeds ends by attaching the buffer at (0, 0), damaging
   * the whole buffer (0, 0, width, height) and committing, in that order,
   * with no earlier attach, damage or commit; it returns the output's display time.
   */
  lemma SubmissionOrder(output: Output, width: U32, height: U32, fs: FileSystem, r: nat, render: Renderer)
    ensures var p := DrawPass(output, width, height, fs, r, render);
      p.result.Ok? ==>
        && p.result == Ok(output.time)
        && |p.effects| >= 3
        && p.effects[|p.effects| - 3..] ==
             [Attach(SurfaceBuffer(width, height), 0, 0), DamageBuffer(0, 0, width, height), Commit]
        && forall i :: 0 <= i < |p.effects| - 3 ==> !IsSubmission(p.effects[i])
  {
    var p := DrawPass(output, width, height, fs, r, render);
    if p.result.Ok? {
      var path := output.path.value;
      var buffer := SurfaceBuffer(width, height);
      var image := PickImage(path, fs, r).value;
      var pixels := render(image, width, height).value;
      var walked := [PoolResize(PoolSize(width, height)), PoolBuffer(buffer)] + (if path in fs.dirs then [WalkDirectory(path)] else []);
      var early := [ClearRedrawFlags] + walked + [OpenImage(image), WriteCanvas(pixels)];
      assert p.effects == early + [Attach(buffer, 0, 0), DamageBuffer(0, 0, width, height), Commit];
      assert forall i :: 0 <= i < |early| ==> !IsSubmission(early[i]);
    }
  }

  /** A pass that stops with a fault has attached, damaged and committed nothing. */
  lemma FaultSubmitsNothing(output: Output, width: U32, height: U32, fs: FileSystem, r: nat, render: Renderer)
    ensures var p := DrawPass(output, width, height, fs, r, render);
      p.result.Err? ==> forall i :: 0 <= i < |p.effects| ==> !IsSubmission(p.effects[i])
  {
  }

  /** The image a successful pass opens, once, is the one `PickImage` chooses. */
  lemma ShowsPickedImage(output: Output, width: U32, height: U32, fs: FileSystem, r: nat, render: Renderer)
    ensures var p := DrawPass(output, width, height, fs, r, render);
      p.result.Ok? ==>
        && output.path.Some? && PickImage(output.path.value, fs, r).Ok?
        && var image := PickImage(output.path.value, fs, r).value;
           && OpenImage(image) in p.effects
           && (forall i :: 0 <= i < |p.effects| && p.effects[i].OpenImage? ==> p.effects[i].path == image)
  {
    var p := DrawPass(output, width, height, fs, r, render);
    if p.result.Ok? {
      var path := output.path.value;
      var buffer := SurfaceBuffer(width, height);
      var image := PickImage(path, fs, r).value;
      var pixels := render(image, width, height).value;
      var walked := [PoolResize(PoolSize(width, height)), PoolBuffer(buffer)] + (if path in fs.dirs then [WalkDirectory(path)] else []);
      var early := [ClearRedrawFlags] + walked;
      var late := [WriteCanvas(pixels), Attach(buffer, 0, 0), DamageBuffer(0, 0, width, height), Commit];
      assert p.effects == early + [OpenImage(image)] + late;
      assert p.effects[|early|] == OpenImage(image);
      forall i | 0 <= i < |early| ensures !p.effects[i].OpenImage? {
        assert p.effects[i] == early[i];
      }
      forall i | |early| < i < |p.effects| ensures !p.effects[i].OpenImage? {
        assert p.effects[i] == late[i - |early| - 1];
      }
    }
  }

  /** A directory is walked afresh on every pass that gets past the geometry check. */
  lemma DirectoryWalkedEveryPass(output: Output, width: U32, height: U32, fs: FileSystem, r: nat, render: Renderer)
    requires output.path.Some? && output.path.value in fs.dirs && GeometryFits(width, height)
    ensures WalkDirectory(output.path.value) in DrawPass(output, width, height, fs, r, render).effects
  {
    var p := DrawPass(output, width, height, fs, r, render);
    var path := output.path.value;
    assert p.effects[3] == WalkDirectory(path);
  }

  /** Every way a pass can stop, and nothing else: it fails exactly at the first step that cannot go on. */
  lemma Faults(output: Output, width: U32, height: U32, fs: FileSystem, r: nat, render: Renderer)
    ensures var p := DrawPass(output, width, height, fs, r, render);
      && (p.result == Err(NoPath) <==> output.path.None?)
      && (p.result == Err(GeometryOverflow) <==> output.path.Some? && !GeometryFits(width, height))
      && (p.result.Err? && p.result.error.NoJpgFiles? <==>
            output.path.Some? && GeometryFits(width, height) && PickImage(output.path.value, fs, r).Err?)
    ensures var p := DrawPass(output, width, height, fs, r, render);
      output.path.Some? && GeometryFits(width, height) && PickImage(output.path.value, fs, r).Ok? ==>
        var image := PickImage(output.path.value, fs, r).value;
        && (p.result == Err(OpenFailed(image)) <==> render(image, width, height).None?)
        && (p.result == Err(CanvasOverflow) <==>
              render(image, width, height).Some? && |render(image, width, height).value| > 4 * width * height)
  {
    if output.path.Some? {
      PickImageSpec(output.path.value, fs, r);
    }
  }

  /**
   * When the codec keeps its promise that a filled image has exactly
   * `width * height` four-byte pixels, a pass whose path and image are
   * available succeeds, and the bytes it copies fill the pool exactly.
   */
  lemma ExactRasterIsShown(output: Output, width: U32, height: U32, fs: FileSystem, r: nat, render: Renderer)
    requires output.path.Some? && GeometryFits(width, height) && PickImage(output.path.value, fs, r).Ok?
    requires var image := PickImage(output.path.value, fs, r).value;
      render(image, width, height).Some? && |render(image, width, height).value| == 4 * width * height
    ensures var p := DrawPass(output, width, height, fs, r, render);
      var pixels := render(PickImage(output.path.value, fs, r).value, width, height).value;
      && p.result == Ok(output.time)
      && WriteCanvas(pixels) in p.effects && |pixels| == PoolSize(width, height)
  {
  }
}
