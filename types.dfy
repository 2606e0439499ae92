/** Shared constants and value types of the tile scheduler (SimpleTiling.h). */
module TilingTypes {

  /** Vector lanes per colour batch (NUM_VECTOR_LANES in the AVX build). */
  const Lanes: nat := 8

  /** Largest number of tiles the library supports (max_tiles); tile masks are 64 bits wide. */
  const MaxTiles: nat := 64

  /** Capacity of every per-tile job queue (job_q::max_queued_jobs). */
  const MaxQueuedJobs: nat := 32

  newtype uint32 = x: int | 0 <= x < 0x1_0000_0000
  newtype uint64 = x: int | 0 <= x < 0x1_0000_0000_0000_0000

  /** One 8bpc colour per vector lane (color_batch). */
  type ColorBatch = s: seq<uint32> | |s| == Lanes witness [0, 0, 0, 0, 0, 0, 0, 0]

  /** Per-tile state shared between the main thread and the tile's worker (TILE_STATES). */
  datatype TileState = Idle | Processing | Uploading

  /**
   * A caller's draw job (draw_job). The vector it receives holds the pixel
   * indices init, init + 1, ..., init + 7, so it is determined by init; the
   * batch it writes is the result.
   */
  type PixelFn = nat -> ColorBatch

  datatype Option<T> = None | Some(value: T)
}
