/**
 * Clients of the surface controller: each method drives one surface through
 * a scenario, the way the process's event loop does, and states what it sees.
 */
module Scenarios {
  import opened Wrappers
  import opened Protocol
  import opened Paths
  import opened RenderEvents
  import opened Surfaces

  /** A stand-in codec whose filled images always have the requested size. */
  function BlankRaster(width: nat, height: nat): (pixels: seq<bv8>)
    ensures |pixels| == 4 * width * height
  {
    seq(4 * width * height, _ => 0)
  }

  const ExactCodec: Renderer := (image: Path, width: nat, height: nat) => Some(BlankRaster(width, height))

  /** Two configures before the loop runs: only the second takes effect, and only one redraw happens. */
  method TwoConfiguresOneRedraw() returns (dims: (U32, U32), first: Result<Option<U32>, Fault>, second: Result<Option<U32>, Fault>)
    ensures dims == (200, 200)
    ensures first == Ok(Some(30)) && second == Ok(None)
  {
    var s := new Surface(Output(Some("/walls/a.jpg"), Some(30)));
    s.OnLayerEvent(ConfigureEvent(1, 100, 100));
    s.OnLayerEvent(ConfigureEvent(2, 200, 200));
    var dropIt := s.HandleEvents();
    dims := s.dimensions;
    var fs := FileSystem(map[]);
    first := s.Draw(fs, 0, ExactCodec);
    second := s.Draw(fs, 0, ExactCodec);
  }

  /** A configure after a close is ignored: the surface is dropped and its size stays unset. */
  method ConfigureAfterClose() returns (shouldDrop: bool, dims: (U32, U32), drawn: Result<Option<U32>, Fault>)
    ensures shouldDrop && dims == (0, 0) && drawn == Ok(None)
  {
    var s := new Surface(Output(Some("/walls/a.jpg"), Some(10)));
    s.OnLayerEvent(ClosedEvent);
    s.OnLayerEvent(ConfigureEvent(7, 640, 480));
    shouldDrop := s.HandleEvents();
    dims := s.dimensions;
    s.timer.expired := true;
    drawn := s.Draw(FileSystem(map[]), 0, ExactCodec);
  }

  /**
   * After a draw the surface is idle; a new output whose path is a directory
   * forces the next draw although the timer has not expired, and that draw
   * shows a `.jpg` file of the new directory.
   */
  method NewOutputForcesRedraw() returns (first: Result<Option<U32>, Fault>, idle: Result<Option<U32>, Fault>, redrawn: Result<Option<U32>, Fault>, ghost shown: Effect)
    ensures first == Ok(Some(10)) && idle == Ok(None)
    ensures redrawn == Ok(Some(60))
    ensures shown == OpenImage("/new/y.JPG")
  {
    var s := new Surface(Output(Some("/walls/a.jpg"), Some(10)));
    s.OnLayerEvent(ConfigureEvent(1, 1920, 1080));
    var dropIt := s.HandleEvents();
    var fs := FileSystem(map["/new" := ["/new/x.png", "/new/y.JPG"]]);
    first := s.Draw(fs, 0, ExactCodec);
    idle := s.Draw(fs, 0, ExactCodec);
    s.UpdateOutput(Output(Some("/new"), Some(60)));
    ghost var before := |s.trace|;
    assert JpgFiles(["/new/x.png", "/new/y.JPG"]) == ["/new/y.JPG"];
    redrawn := s.Draw(fs, 5, ExactCodec);
    shown := s.trace[before + 4];
  }

  /** A directory without `.jpg` files stops the draw after the flags are cleared and the pool is set up. */
  method EmptyDirectory() returns (res: Result<Option<U32>, Fault>, needRedraw: bool)
    ensures res == Err(NoJpgFiles("/empty"))
    ensures !needRedraw
  {
    var s := new Surface(Output(Some("/empty"), None));
    s.OnLayerEvent(ConfigureEvent(3, 800, 600));
    var dropIt := s.HandleEvents();
    var fs := FileSystem(map["/empty" := ["/empty/notes.txt", "/empty/.jpg"]]);
    assert !EndsInJpg("/empty/.jpg");
    res := s.Draw(fs, 0, ExactCodec);
    needRedraw := s.needRedraw;
  }

  /**
   * Any run of events delivered before the loop polls: the surface is to be
   * dropped exactly when a close arrived, and otherwise its size is that of
   * the last configure, or still unset when none came. `acks` is what the
   * surface sent after its setup: one acknowledgement per configure before
   * the first close.
   */
  method DeliverThenHandle(evs: seq<LayerEvent>) returns (shouldDrop: bool, dims: (U32, U32), ghost acks: seq<Effect>)
    ensures shouldDrop <==> ClosedArrives(evs)
    ensures acks == AckEveryConfigure(BeforeFirstClose(evs))
    ensures !ClosedArrives(evs) ==>
      dims == match LastConfigure(evs) { case Some(Configure(w, h)) => (w, h) case _ => (0, 0) }
  {
    var s := new Surface(Output(None, None));
    var i := 0;
    while i < |evs|
      invariant 0 <= i <= |evs|
      invariant s.Valid() && !s.dropped && s.dimensions == (0, 0)
      invariant s.cell.value == SlotAfterAll(None, evs[..i])
      invariant s.trace == SetupEffects() + AcksAfterAll(None, evs[..i])
      modifies s, s.cell
    {
      SlotAfterAllSnoc(None, evs[..i], evs[i]);
      AcksAfterAllSnoc(None, evs[..i], evs[i]);
      assert evs[..i + 1] == evs[..i] + [evs[i]];
      s.OnLayerEvent(evs[i]);
      i := i + 1;
    }
    assert evs[..i] == evs;
    AcksAreConfiguresBeforeClose(None, evs);
    acks := s.trace[|SetupEffects()|..];
    EndsClosedIffClosedArrives(None, evs);
    if !ClosedArrives(evs) {
      LatestConfigureWins(None, evs);
      LastConfigureIsConfigure(evs);
    }
    shouldDrop := s.HandleEvents();
    dims := s.dimensions;
  }
}
