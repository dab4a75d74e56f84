/**
 * Wayland protocol vocabulary of the surface controller: the integer widths of
 * the wire types and the calls the controller makes, as entries of a trace.
 */
module Protocol {

  /** `u32`, the type of serials and configured sizes. */
  type U32 = x: int | 0 <= x < 0x1_0000_0000

  /** Largest `i32`; stride, width, height and pool size are passed as `i32`. */
  const I32Max: int := 0x7fff_ffff

  type Path = string

  /** The layer a layer surface lives on; the controller only asks for the background. */
  datatype Layer = Background

  /** Anchor edges of a layer surface. */
  datatype Edge = Top | Bottom | Left | Right

  /** Pixel formats of `wl_shm`; the controller only asks for 4-byte ABGR. */
  datatype Format = Abgr8888

  /** A buffer handed out by the shared-memory pool, described by its geometry. */
  datatype Buffer = Buffer(width: int, height: int, stride: int, format: Format)

  /**
   * One observable step of the controller, in the order it happens: protocol
   * requests on the layer surface and the `wl_surface`, requests to the pixel
   * pool, filesystem reads, and the point where the redraw flags are consumed.
   */
  datatype Effect =
    | GetLayerSurface(layer: Layer, namespace: string)
    | SetSize(width: int, height: int)
    | SetAnchor(edges: set<Edge>)
    | SetExclusiveZone(zone: int)
    | AckConfigure(serial: U32)
    | ClearRedrawFlags
    | PoolResize(bytes: int)
    | PoolBuffer(buffer: Buffer)
    | WalkDirectory(dir: Path)
    | OpenImage(path: Path)
    | WriteCanvas(pixels: seq<bv8>)
    | Attach(buffer: Buffer, x: int, y: int)
    | DamageBuffer(x: int, y: int, width: int, height: int)
    | Commit
    | DestroyLayerSurface
    | DestroySurface
}
