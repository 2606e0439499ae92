/**
 * The tile scheduler of SimpleTiling.cpp as one sequential object: setup's
 * layout and per-tile storage, draw submission, the draw pass a worker runs
 * for one job, the copy-out of finished tiles into the back buffer, and one
 * iteration of a worker's loop. Each operation is one atomic step; values
 * that other threads store into shared state while a step runs are inputs.
 */
module Tiling {
  import opened TilingTypes
  import opened Arith
  import opened Layout
  import opened JobQueues
  import opened FastVecs
  import Allocator

  /** The one draw wrapper the library queues (draw_wrapper). */
  datatype DrawWrapperRef = DrawWrapperFn

  /** Opaque references to an update wrapper and an update job supplied by callers. */
  datatype UpdateWrapperRef = UpdateWrapperRef(id: nat)
  datatype UpdateJobRef = UpdateJobRef(id: nat)

  type DrawQueue = JobQueue<DrawWrapperRef, PixelFn>
  type UpdateQueue = JobQueue<UpdateWrapperRef, UpdateJobRef>

  /** Bit i of a 64-bit tile mask is set. */
  predicate Selected(mask: bv64, i: nat)
    requires i < MaxTiles
  {
    mask & (1 << i) != 0
  }

  /**
   * The number of leading rows during which a worker sees its tile in
   * Uploading: the rows the draw pass has to stage.
   */
  function LeadingUploads(observed: seq<TileState>): (k: nat)
    ensures k <= |observed|
    ensures forall i :: 0 <= i < k ==> observed[i] == Uploading
    ensures k < |observed| ==> observed[k] != Uploading
  {
    if observed == [] || observed[0] != Uploading then 0
    else 1 + LeadingUploads(observed[1..])
  }

  /** The relative row numbers 0, 1, ..., k-1. */
  function Rows(k: nat): seq<uint32>
    requires k < 0x1_0000_0000
  {
    seq(k, i requires 0 <= i < k => i as uint32)
  }

  /**
   * The batch the draw pass stores at index i of a tile buffer with perRow
   * batches per row: the job applied to the first pixel of that batch,
   * (minY + row) * canvasWidth + minX + Lanes * batch.
   */
  function ExpectedBatch(job: PixelFn, cw: nat, r: Rect, perRow: nat, i: nat): ColorBatch
    requires perRow > 0
  {
    job((r.minY + i / perRow) * cw + r.minX + Lanes * (i % perRow))
  }

  /** The whole tile as a finished draw pass leaves it: n batches, batch i as ExpectedBatch gives it. */
  ghost function Image(job: PixelFn, cw: nat, r: Rect, perRow: nat, n: nat): seq<ColorBatch>
    requires perRow > 0
  {
    seq(n, i requires 0 <= i < n => ExpectedBatch(job, cw, r, perRow, i))
  }

  /**
   * Pixel (row, col) of a finished tile, its buffer read as consecutive
   * pixels, is lane col % Lanes of the job applied to the first pixel of
   * col's batch.
   */
  lemma ImagePixel(job: PixelFn, cw: nat, r: Rect, perRow: nat, rows: nat, row: nat, col: nat)
    requires row < rows && col < Lanes * perRow
    ensures perRow > 0
    ensures row * (Lanes * perRow) + col < Lanes * (perRow * rows)
    ensures PixelOf(Image(job, cw, r, perRow, perRow * rows), row * (Lanes * perRow) + col)
         == job((r.minY + row) * cw + r.minX + (col - col % Lanes))[col % Lanes]
  {
    RowMajorBound(row, rows, col, Lanes * perRow);
    LaneSplit(Lanes, perRow, row, col);
    RowMajorBound(row, rows, col / Lanes, perRow);
  }

  /**
   * Buffer contents s, read as rows of perRow batches, hold src in rows
   * lo..hi-1 and base everywhere else.
   */
  ghost predicate RowsFrom(s: seq<ColorBatch>, src: seq<ColorBatch>, base: seq<ColorBatch>, perRow: nat, lo: nat, hi: nat)
    requires perRow > 0 && |src| == |s| && |base| == |s|
  {
    forall j :: 0 <= j < |s| ==> s[j] == if lo <= j / perRow < hi then src[j] else base[j]
  }

  /** Filling row hi after rows lo..hi-1 fills rows lo..hi. */
  lemma RowsExtend(s0: seq<ColorBatch>, s1: seq<ColorBatch>, src: seq<ColorBatch>, base: seq<ColorBatch>,
                   perRow: nat, lo: nat, hi: nat)
    requires perRow > 0 && |s0| == |s1| && |src| == |s1| && |base| == |s1| && lo <= hi
    requires RowsFrom(s0, src, base, perRow, lo, hi)
    requires RowsFrom(s1, src, s0, perRow, hi, hi + 1)
    ensures RowsFrom(s1, src, base, perRow, lo, hi + 1)
  {
  }

  /**
   * A draw pass that drew rows k.. into the tile buffer and rows ..k-1 into
   * staging, followed by a replay of staged rows 0..k-1 into the tile buffer,
   * leaves the whole image in the tile buffer whatever it held before.
   */
  lemma {:induction false} ReplayCompletes(b0: seq<ColorBatch>, b1: seq<ColorBatch>, b2: seq<ColorBatch>,
                                           st0: seq<ColorBatch>, st: seq<ColorBatch>, img: seq<ColorBatch>,
                                           perRow: nat, rows: nat, k: nat)
    requires perRow > 0 && |b0| == perRow * rows && k <= rows
    requires |b1| == |b0| && |b2| == |b0| && |st0| == |b0| && |st| == |b0| && |img| == |b0|
    requires RowsFrom(b1, img, b0, perRow, k, rows)
    requires RowsFrom(st, img, st0, perRow, 0, k)
    requires RowsFrom(b2, st, b1, perRow, 0, k)
    ensures b2 == img
  {
    forall j | 0 <= j < |b2|
      ensures j / perRow < rows
    {
      DivBelow(j, perRow, rows);
    }
    forall j | 0 <= j < |b2|
      ensures b2[j] == img[j]
    {
      if j / perRow < k {
        assert b2[j] == st[j];
      } else {
        assert b2[j] == b1[j];
      }
    }
  }

  method NewQueues<W(0), J(0)>(n: nat) returns (qs: seq<JobQueue<W, J>>, ghost repr: set<object>)
    ensures |qs| == n && fresh(repr)
    ensures forall i :: 0 <= i < n ==> qs[i].Valid() && qs[i].Repr <= repr && qs[i].front == 0 && qs[i].Contents() == []
    ensures forall i, j :: 0 <= i < n && 0 <= j < n && i != j ==> qs[i].Repr !! qs[j].Repr
  {
    qs, repr := [], {};
    while |qs| < n
      invariant |qs| <= n && fresh(repr)
      invariant forall i :: 0 <= i < |qs| ==> qs[i].Valid() && qs[i].Repr <= repr && qs[i].front == 0 && qs[i].Contents() == []
      invariant forall i, j :: 0 <= i < |qs| && 0 <= j < |qs| && i != j ==> qs[i].Repr !! qs[j].Repr
    {
      var q := new JobQueue<W, J>();
      qs, repr := qs + [q], repr + q.Repr;
    }
  }

  method NewBuffers(n: nat, size: nat) returns (bs: seq<array<ColorBatch>>, ghost repr: set<object>)
    ensures |bs| == n && fresh(repr)
    ensures forall i :: 0 <= i < n ==> bs[i] in repr && bs[i].Length == size
    ensures forall i, j :: 0 <= i < n && 0 <= j < n && i != j ==> bs[i] != bs[j]
  {
    bs, repr := [], {};
    while |bs| < n
      invariant |bs| <= n && fresh(repr)
      invariant forall i :: 0 <= i < |bs| ==> bs[i] in repr && bs[i].Length == size
      invariant forall i, j :: 0 <= i < |bs| && 0 <= j < |bs| && i != j ==> bs[i] != bs[j]
    {
      var b := new ColorBatch[size];
      bs, repr := bs + [b], repr + {b};
    }
  }

  method NewStrips(n: nat, size: nat) returns (vs: seq<FastVec>, ghost repr: set<object>)
    ensures |vs| == n && fresh(repr)
    ensures forall i :: 0 <= i < n ==>
      vs[i] in repr && vs[i].data in repr && vs[i].Valid() && vs[i].front == 0 && vs[i].Contents() == [] && vs[i].data.Length == size
    ensures forall i, j :: 0 <= i < n && 0 <= j < n && i != j ==> vs[i] != vs[j] && vs[i].data != vs[j].data
  {
    vs, repr := [], {};
    while |vs| < n
      invariant |vs| <= n && fresh(repr)
      invariant forall i :: 0 <= i < |vs| ==>
        vs[i] in repr && vs[i].data in repr && vs[i].Valid() && vs[i].front == 0 && vs[i].Contents() == [] && vs[i].data.Length == size
      invariant forall i, j :: 0 <= i < |vs| && 0 <= j < |vs| && i != j ==> vs[i] != vs[j] && vs[i].data != vs[j].data
    {
      var memory := new uint32[size];
      var v := new FastVec(memory);
      vs, repr := vs + [v], repr + {v, memory};
    }
  }

  /**
   * The batch loop of draw_wrapper for one row (SimpleTiling.cpp:175-203).
   * The tile is perRow batches wide and `rows` rows high; relative row rel
   * is drawn batch by batch, each batch stored at (rel * width + x) / Lanes.
   * Afterwards row rel of dst holds the job's batches and nothing else changed.
   */
  method DrawRow(dst: array<ColorBatch>, job: PixelFn, cw: nat, r: Rect, perRow: nat, rows: nat, rel: nat)
    requires perRow > 0 && r.maxX == r.minX + Lanes * perRow
    requires rel < rows && dst.Length == perRow * rows
    modifies dst
    ensures RowsFrom(dst[..], Image(job, cw, r, perRow, dst.Length), old(dst[..]), perRow, rel, rel + 1)
  {
    var pixelRow := r.minY + rel;
    var tileWidth := r.maxX - r.minX;
    var pixelBatch := r.minX;
    ghost var b := 0;
    while pixelBatch < r.maxX
      invariant pixelBatch == r.minX + Lanes * b && b <= perRow
      invariant forall j :: 0 <= j < dst.Length ==>
        dst[j] == if j / perRow == rel && j % perRow < b then ExpectedBatch(job, cw, r, perRow, j) else old(dst[j])
      decreases r.maxX - pixelBatch
    {
      var batchColors := job(pixelRow * cw + pixelBatch);
      var tilePx := rel * tileWidth + (pixelBatch - r.minX);
      BatchSlot(Lanes, perRow, rows, rel, b);
      dst[tilePx / Lanes] := batchColors;
      forall j | 0 <= j < dst.Length
        ensures (j / perRow == rel && j % perRow < b + 1) <==> ((j / perRow == rel && j % perRow < b) || j == tilePx / Lanes)
      {
        PrefixStep(j, perRow, rel, b);
      }
      pixelBatch := pixelBatch + Lanes;
      b := b + 1;
    }
  }

  /**
   * The row loop of draw_wrapper (SimpleTiling.cpp:153-204) for tile t with
   * bounds r, perRow batches per row and `rows` rows. Before each row, as
   * long as no row has been found unblocked, the worker reads the tile state
   * (observed[rel], stored into states[t]); a row read as Uploading is
   * blocked: it is listed in strips and drawn into staging; the first row
   * read otherwise flags the tile Processing, and it and every later row are
   * drawn into buffer.
   */
  method DrawRows(states: array<TileState>, t: nat, buffer: array<ColorBatch>, staging: array<ColorBatch>,
                  strips: FastVec, job: PixelFn, cw: nat, r: Rect, perRow: nat, rows: nat,
                  observed: seq<TileState>)
    requires t < states.Length && buffer != staging
    requires perRow > 0 && r.maxX == r.minX + Lanes * perRow && r.maxY == r.minY + rows
    requires buffer.Length == perRow * rows && staging.Length == perRow * rows
    requires strips.Valid() && strips.front == 0 && strips.data.Length == perRow * rows
    requires |observed| == rows && rows < 0x1_0000_0000
    modifies states, buffer, staging, strips, strips.data
    ensures strips.Valid() && strips.front == LeadingUploads(observed)
    ensures strips.Contents() == Rows(LeadingUploads(observed))
    ensures RowsFrom(buffer[..], Image(job, cw, r, perRow, buffer.Length), old(buffer[..]), perRow, LeadingUploads(observed), rows)
    ensures RowsFrom(staging[..], Image(job, cw, r, perRow, staging.Length), old(staging[..]), perRow, 0, LeadingUploads(observed))
    ensures states[t] ==
      if LeadingUploads(observed) < rows then Processing else if rows > 0 then Uploading else old(states[t])
    ensures forall j :: 0 <= j < states.Length && j != t ==> states[j] == old(states[j])
  {
    ghost var k := LeadingUploads(observed);
    ghost var img := Image(job, cw, r, perRow, buffer.Length);
    var unblocked := false;
    for pixelRow := r.minY to r.maxY
      invariant strips.Valid() && strips.front == Min(pixelRow - r.minY, k)
      invariant strips.Contents() == Rows(strips.front)
      invariant unblocked <==> k < pixelRow - r.minY
      invariant states[t] ==
        if pixelRow == r.minY then old(states[t]) else if k < pixelRow - r.minY then Processing else Uploading
      invariant forall j :: 0 <= j < states.Length && j != t ==> states[j] == old(states[j])
      invariant RowsFrom(buffer[..], img, old(buffer[..]), perRow, k, if unblocked then pixelRow - r.minY else k)
      invariant RowsFrom(staging[..], img, old(staging[..]), perRow, 0, Min(pixelRow - r.minY, k))
    {
      var rel := pixelRow - r.minY;
      var tileBlocked := false;
      if !unblocked {
        // The state as the other threads have left it by this row.
        states[t] := observed[rel];
        tileBlocked := states[t] == Uploading;
        if !tileBlocked {
          unblocked := true;
          states[t] := Processing;
        }
      }
      if tileBlocked {
        MulMono(1, perRow, rel);
        RowInside(rel, perRow, rows);
        strips.PushBack(rel as uint32);
        ghost var before := staging[..];
        DrawRow(staging, job, cw, r, perRow, rows, rel);
        RowsExtend(before, staging[..], img, old(staging[..]), perRow, 0, rel);
      } else {
        ghost var before := buffer[..];
        DrawRow(buffer, job, cw, r, perRow, rows, rel);
        RowsExtend(before, buffer[..], img, old(buffer[..]), perRow, k, rel);
      }
    }
  }

  /**
   * The body of draw_wrapper for tile t (SimpleTiling.cpp:153-231), on the
   * tile's arrays: the rows pass of DrawRows, then, when the scheduler is
   * still running, the wait for the copy-out, the replay of the staged rows,
   * the reset of the strip list and the switch to Uploading.
   */
  method DrawPass(states: array<TileState>, t: nat, buffer: array<ColorBatch>, staging: array<ColorBatch>,
                  strips: FastVec, job: PixelFn, cw: nat, r: Rect, perRow: nat, rows: nat,
                  observed: seq<TileState>, running: bool)
    requires t < states.Length && buffer != staging
    requires perRow > 0 && r.maxX == r.minX + Lanes * perRow && r.maxY == r.minY + rows
    requires buffer.Length == perRow * rows && staging.Length == perRow * rows
    requires strips.Valid() && strips.front == 0 && strips.data.Length == perRow * rows
    requires |observed| == rows && rows < 0x1_0000_0000
    modifies states, buffer, staging, strips, strips.data
    ensures strips.Valid()
    ensures running ==> buffer[..] == Image(job, cw, r, perRow, buffer.Length)
    ensures !running ==> RowsFrom(buffer[..], Image(job, cw, r, perRow, buffer.Length), old(buffer[..]), perRow, LeadingUploads(observed), rows)
    ensures RowsFrom(staging[..], Image(job, cw, r, perRow, staging.Length), old(staging[..]), perRow, 0, LeadingUploads(observed))
    ensures strips.Contents() == if running then [] else Rows(LeadingUploads(observed))
    ensures states[t] ==
      if running then Uploading
      else if LeadingUploads(observed) < rows then Processing
      else if rows > 0 then Uploading
      else old(states[t])
    ensures forall j :: 0 <= j < states.Length && j != t ==> states[j] == old(states[j])
  {
    DrawRows(states, t, buffer, staging, strips, job, cw, r, perRow, rows, observed);
    if running {
      // The wait at :209-212 ends once the main thread has copied the tile out.
      ghost var drawn := buffer[..];
      ReplayStrips(buffer, staging, strips, perRow, rows);
      ReplayCompletes(old(buffer[..]), drawn, buffer[..], old(staging[..]), staging[..],
                      Image(job, cw, r, perRow, buffer.Length), perRow, rows, LeadingUploads(observed));
      strips.Clear();
      states[t] := Uploading;
    }
  }

  /**
   * The replay of staged rows in draw_wrapper (SimpleTiling.cpp:215-227):
   * for every listed strip, one row of perRow batches is copied from staging
   * into buffer at the same index. The strips list rows 0, 1, ..., so
   * afterwards the first strips.front rows of buffer equal staging's.
   */
  method ReplayStrips(buffer: array<ColorBatch>, staging: array<ColorBatch>, strips: FastVec, perRow: nat, rows: nat)
    requires perRow > 0 && buffer != staging
    requires buffer.Length == perRow * rows && staging.Length == perRow * rows
    requires rows < 0x1_0000_0000
    requires strips.Valid() && strips.front <= rows && strips.Contents() == Rows(strips.front)
    modifies buffer
    ensures RowsFrom(buffer[..], staging[..], old(buffer[..]), perRow, 0, strips.front)
  {
    var numStrips := strips.Size();
    for i := 0 to numStrips
      invariant RowsFrom(buffer[..], staging[..], old(buffer[..]), perRow, 0, i)
    {
      var pixelRow := strips.At(i);
      assert pixelRow == Rows(strips.front)[i];
      ghost var before := buffer[..];
      CopyStrip(buffer, staging, perRow, rows, pixelRow as nat);
      RowsExtend(before, buffer[..], staging[..], old(buffer[..]), perRow, 0, i);
    }
  }

  /**
   * One memcpy of the replay (SimpleTiling.cpp:223-225): the perRow batches
   * of row `row`, starting at row * perRow, copied from staging into buffer.
   */
  method CopyStrip(buffer: array<ColorBatch>, staging: array<ColorBatch>, perRow: nat, rows: nat, row: nat)
    requires perRow > 0 && row < rows && buffer != staging
    requires buffer.Length == perRow * rows && staging.Length == perRow * rows
    modifies buffer
    ensures RowsFrom(buffer[..], staging[..], old(buffer[..]), perRow, row, row + 1)
  {
    var stripNdx := row * perRow;
    RowInside(row, perRow, rows);
    forall c | 0 <= c < perRow {
      buffer[stripNdx + c] := staging[stripNdx + c];
    }
    forall j | 0 <= j < buffer.Length
      ensures (stripNdx <= j < stripNdx + perRow) == (j / perRow == row)
    {
      RowBlock(row, perRow, j);
    }
  }

  /**
   * Pixel k of a tile buffer read as consecutive 32-bit values, as memcpy
   * reads it: lane k % Lanes of batch k / Lanes.
   */
  function PixelOf(buf: seq<ColorBatch>, k: nat): uint32
    requires k < Lanes * |buf|
  {
    buf[k / Lanes][k % Lanes]
  }

  /**
   * The value the copy-out of rectangle r from tile buffer buf puts at canvas
   * index q inside r: the tile's pixel in row q / cw - minY and column
   * q % cw - minX, the tile being stored row by row, width(r) pixels a row.
   */
  ghost function ShownPixel(buf: seq<ColorBatch>, cw: nat, r: Rect, q: nat): uint32
    requires cw > 0 && Contains(r, q % cw, q / cw)
    requires Lanes * |buf| == (r.maxY - r.minY) * (r.maxX - r.minX)
  {
    RowMajorBound(q / cw - r.minY, r.maxY - r.minY, q % cw - r.minX, r.maxX - r.minX);
    PixelOf(buf, (q / cw - r.minY) * (r.maxX - r.minX) + (q % cw - r.minX))
  }

  /**
   * Canvas contents s (rows of cw pixels) show rectangle r from tile buffer
   * buf in canvas rows lo..hi-1 and equal base everywhere else.
   */
  ghost predicate CopiedOut(s: seq<uint32>, base: seq<uint32>, buf: seq<ColorBatch>, cw: nat, r: Rect, lo: nat, hi: nat)
    requires cw > 0 && |base| == |s|
    requires Lanes * |buf| == (r.maxY - r.minY) * (r.maxX - r.minX)
  {
    forall q :: 0 <= q < |s| ==>
      s[q] == if lo <= q / cw < hi && Contains(r, q % cw, q / cw) then ShownPixel(buf, cw, r, q) else base[q]
  }

  /**
   * One memcpy of swap_tile_buffers (SimpleTiling.cpp:427): n pixels of buf
   * from pixel inPx on, stored in the canvas from index outPtr on.
   */
  method CopyPixels(back: array<uint32>, outPtr: nat, buf: array<ColorBatch>, inPx: nat, n: nat)
    requires outPtr + n <= back.Length && inPx + n <= Lanes * buf.Length
    modifies back
    ensures forall q :: 0 <= q < back.Length ==>
      back[q] == if outPtr <= q < outPtr + n then PixelOf(buf[..], inPx + (q - outPtr)) else old(back[q])
  {
    forall c | 0 <= c < n {
      back[outPtr + c] := buf[(inPx + c) / Lanes][(inPx + c) % Lanes];
    }
  }

  /** A copy of canvas row y's span of r, after rows minY..y-1, completes rows minY..y. */
  lemma RowCopied(s0: seq<uint32>, s1: seq<uint32>, base: seq<uint32>, buf: seq<ColorBatch>, cw: nat, r: Rect, y: nat)
    requires cw > 0 && r.minX <= r.maxX <= cw && r.minY <= y < r.maxY
    requires |s0| == |s1| && |base| == |s1|
    requires Lanes * |buf| == (r.maxY - r.minY) * (r.maxX - r.minX)
    requires (y - r.minY) * (r.maxX - r.minX) + (r.maxX - r.minX) <= Lanes * |buf|
    requires CopiedOut(s0, base, buf, cw, r, r.minY, y)
    requires forall q :: 0 <= q < |s1| ==>
      s1[q] == if y * cw + r.minX <= q < y * cw + r.maxX
               then PixelOf(buf, (y - r.minY) * (r.maxX - r.minX) + (q - (y * cw + r.minX)))
               else s0[q]
    ensures CopiedOut(s1, base, buf, cw, r, r.minY, y + 1)
  {
    forall q | 0 <= q < |s1|
      ensures (y * cw + r.minX <= q < y * cw + r.maxX) <==> (q / cw == y && r.minX <= q % cw < r.maxX)
      ensures q == (q / cw) * cw + q % cw
    {
      RowSegment(q, cw, y, r.minX, r.maxX);
    }
  }

  /**
   * One pass of the row loop of swap_tile_buffers (SimpleTiling.cpp:427):
   * canvas row y's span of r, which starts at outPtr, receives tile row
   * y - minY, which starts at pixel inPx of buf.
   */
  method CopyRow(back: array<uint32>, buf: array<ColorBatch>, cw: nat, r: Rect, y: nat, outPtr: nat, inPx: nat,
                 ghost base: seq<uint32>)
    requires cw > 0 && r.minX <= r.maxX <= cw && r.minY <= y < r.maxY
    requires r.maxY * cw <= back.Length && |base| == back.Length
    requires Lanes * buf.Length == (r.maxY - r.minY) * (r.maxX - r.minX)
    requires outPtr == y * cw + r.minX && inPx == (y - r.minY) * (r.maxX - r.minX)
    requires CopiedOut(back[..], base, buf[..], cw, r, r.minY, y)
    modifies back
    ensures CopiedOut(back[..], base, buf[..], cw, r, r.minY, y + 1)
  {
    RowInside(y - r.minY, r.maxX - r.minX, r.maxY - r.minY);
    RowInside(y, cw, r.maxY);
    ghost var before := back[..];
    CopyPixels(back, outPtr, buf, inPx, r.maxX - r.minX);
    RowCopied(before, back[..], base, buf[..], cw, r, y);
  }

  /**
   * The row loop of swap_tile_buffers for one uploading tile
   * (SimpleTiling.cpp:415-430): row by row the tile's pixels go to the
   * canvas, the input advancing by a tile row of batches and the output by
   * a canvas row.
   */
  method CopyTileOut(back: array<uint32>, buf: array<ColorBatch>, cw: nat, r: Rect)
    requires cw > 0 && r.minX <= r.maxX <= cw && r.minY <= r.maxY
    requires (r.maxX - r.minX) % Lanes == 0
    requires r.maxY * cw <= back.Length
    requires Lanes * buf.Length == (r.maxY - r.minY) * (r.maxX - r.minX)
    modifies back
    ensures CopiedOut(back[..], old(back[..]), buf[..], cw, r, r.minY, r.maxY)
  {
    ghost var base := back[..];
    var destW: nat := r.maxX - r.minX;
    var srcW: nat := destW / Lanes;
    var inBatch: nat := 0;
    var outPtr: nat := r.minY * cw + r.minX;
    assert Lanes * srcW == destW;
    for y := r.minY to r.maxY
      invariant Lanes * inBatch == (y - r.minY) * destW && outPtr == y * cw + r.minX
      invariant CopiedOut(back[..], base, buf[..], cw, r, r.minY, y)
    {
      var inPx: nat := Lanes * inBatch;
      CopyRow(back, buf, cw, r, y, outPtr, inPx, base);
      PointerStep(Lanes, y, r.minY, destW, srcW, cw, r.minX, inBatch, outPtr);
      inBatch := inBatch + srcW;
      outPtr := outPtr + cw;
    }
  }

  /** The pixel of tile c's buffer buf that belongs at canvas index q, for q inside tile c. */
  ghost function TilePixelOf(buf: seq<ColorBatch>, g: Grid, cw: nat, ch: nat, c: nat, q: nat): uint32
    requires WellShaped(g) && cw > 0 && TileAt(g, cw, ch, q % cw, q / cw) == Some(c)
    requires Lanes * |buf| == TileHeight(g, ch) * TileWidth(g, cw)
  {
    ContainsOfTileAt(g, cw, ch, c, q % cw, q / cw);
    ShownPixel(buf, cw, TileRect(g, cw, ch, c), q)
  }

  /** A copy-out of tile c's whole rectangle changes exactly the canvas pixels TileAt assigns to c. */
  lemma OwnedPixelsCopied(s: seq<uint32>, base: seq<uint32>, buf: seq<ColorBatch>, g: Grid, cw: nat, ch: nat, c: nat)
    requires WellShaped(g) && c < g.numTiles && cw > 0 && |base| == |s|
    requires Lanes * |buf| == TileHeight(g, ch) * TileWidth(g, cw)
    requires CopiedOut(s, base, buf, cw, TileRect(g, cw, ch, c), TileRect(g, cw, ch, c).minY, TileRect(g, cw, ch, c).maxY)
    ensures forall q :: 0 <= q < |s| ==>
      s[q] == if TileAt(g, cw, ch, q % cw, q / cw) == Some(c)
              then TilePixelOf(buf, g, cw, ch, c, q)
              else base[q]
  {
    var r := TileRect(g, cw, ch, c);
    forall q | 0 <= q < |s|
      ensures Contains(r, q % cw, q / cw) <==> TileAt(g, cw, ch, q % cw, q / cw) == Some(c)
    {
      TileAtCorrect(g, cw, ch, c, q % cw, q / cw);
    }
  }

  /**
   * Where the copy-out puts the tile's pixels: pixel (row, col) of tile c,
   * the tile being stored row by row, lands at canvas index
   * (minY + row) * cw + minX + col, which lies inside the canvas and belongs
   * to tile c.
   */
  lemma CopiedPixelPlacement(buf: seq<ColorBatch>, g: Grid, cw: nat, ch: nat, c: nat, row: nat, col: nat)
    requires WellShaped(g) && c < g.numTiles
    requires row < TileHeight(g, ch) && col < TileWidth(g, cw)
    requires Lanes * |buf| == TileHeight(g, ch) * TileWidth(g, cw)
    ensures var r := TileRect(g, cw, ch, c);
            var q := (r.minY + row) * cw + r.minX + col;
            && cw > 0 && q < cw * ch
            && TileAt(g, cw, ch, q % cw, q / cw) == Some(c)
            && row * TileWidth(g, cw) + col < Lanes * |buf|
            && TilePixelOf(buf, g, cw, ch, c, q) == PixelOf(buf, row * TileWidth(g, cw) + col)
  {
    CanvasPixelOfTile(g, cw, ch, c, row, col);
    RowMajorBound(row, TileHeight(g, ch), col, TileWidth(g, cw));
  }

  /**
   * The end-to-end result of a finished draw pass followed by a copy-out:
   * canvas pixel q of tile c shows lane l of the job applied to the batch
   * that starts l pixels before q, l being q's offset within its batch.
   * In other words every pixel shows the job's colour for that very pixel.
   */
  lemma DrawnPixelShown(job: PixelFn, g: Grid, cw: nat, ch: nat, c: nat, q: nat)
    requires WellShaped(g) && cw > 0 && TileAt(g, cw, ch, q % cw, q / cw) == Some(c)
    requires TileWidth(g, cw) % Lanes == 0 && TileWidth(g, cw) >= Lanes
    ensures var r := TileRect(g, cw, ch, c);
            var perRow := TileWidth(g, cw) / Lanes;
            var l := (q % cw - r.minX) % Lanes;
            && Lanes * (perRow * TileHeight(g, ch)) == TileHeight(g, ch) * TileWidth(g, cw)
            && l <= q
            && TilePixelOf(Image(job, cw, r, perRow, perRow * TileHeight(g, ch)), g, cw, ch, c, q) == job(q - l)[l]
  {
    DivMod(q, cw);
    var px: nat, py: nat := q % cw, q / cw;
    ContainsOfTileAt(g, cw, ch, c, px, py);
    var r := TileRect(g, cw, ch, c);
    var tw, th := TileWidth(g, cw), TileHeight(g, ch);
    var perRow := tw / Lanes;
    var row, col := py - r.minY, px - r.minX;
    assert Lanes * perRow == tw;
    PackedArea(Lanes, tw, th);
    var img := Image(job, cw, r, perRow, perRow * th);
    CopiedPixelPlacement(img, g, cw, ch, c, row, col);
    ImagePixel(job, cw, r, perRow, th, row, col);
  }

  /** Slot c of the four bounds arrays holds the rectangle of tile c, for every tile of g. */
  ghost predicate LaidOut(g: Grid, cw: nat, ch: nat, minX: array<nat>, maxX: array<nat>, minY: array<nat>, maxY: array<nat>)
    requires WellShaped(g)
    requires g.numTiles <= minX.Length && g.numTiles <= maxX.Length
    requires g.numTiles <= minY.Length && g.numTiles <= maxY.Length
    reads minX, maxX, minY, maxY
  {
    forall c {:trigger TileRect(g, cw, ch, c)} :: 0 <= c < g.numTiles ==>
      Rect(minX[c], maxX[c], minY[c], maxY[c]) == TileRect(g, cw, ch, c)
  }

  /**
   * The layout part of setup (SimpleTiling.cpp:302-338): the grid for n
   * requested tiles and freshly zeroed bounds arrays filled by LayOutTiles.
   */
  method LayOut(n: nat, cw: nat, ch: nat) returns (g: Grid, minX: array<nat>, maxX: array<nat>, minY: array<nat>, maxY: array<nat>)
    requires 1 <= n <= MaxTiles
    ensures g == GridShape(n) && WellShaped(g) && 1 <= g.numTiles <= MaxTiles
    ensures fresh(minX) && fresh(maxX) && fresh(minY) && fresh(maxY)
    ensures minX.Length == MaxTiles && maxX.Length == MaxTiles && minY.Length == MaxTiles && maxY.Length == MaxTiles
    ensures minX != maxX && minX != minY && minX != maxY && maxX != minY && maxX != maxY && minY != maxY
    ensures LaidOut(g, cw, ch, minX, maxX, minY, maxY)
  {
    g := GridShape(n);
    GridShapeSupported(n);
    minX := new nat[MaxTiles];
    maxX := new nat[MaxTiles];
    minY := new nat[MaxTiles];
    maxY := new nat[MaxTiles];
    LayOutTiles(g, cw, ch, minX, maxX, minY, maxY);
  }

  /**
   * The nested loop of setup that fills tileMinX/MaxX/MinY/MaxY column-major
   * (SimpleTiling.cpp:324-338): slot x*numTilesY + y gets column x, row y.
   */
  method LayOutTiles(g: Grid, cw: nat, ch: nat, minX: array<nat>, maxX: array<nat>, minY: array<nat>, maxY: array<nat>)
    requires WellShaped(g)
    requires g.numTiles <= minX.Length && g.numTiles <= maxX.Length
    requires g.numTiles <= minY.Length && g.numTiles <= maxY.Length
    requires minX != maxX && minX != minY && minX != maxY && maxX != minY && maxX != maxY && minY != maxY
    modifies minX, maxX, minY, maxY
    ensures forall c {:trigger TileRect(g, cw, ch, c)} :: 0 <= c < g.numTiles ==>
      Rect(minX[c], maxX[c], minY[c], maxY[c]) == TileRect(g, cw, ch, c)
    ensures forall c :: g.numTiles <= c < minX.Length ==> minX[c] == old(minX[c])
    ensures forall c :: g.numTiles <= c < maxX.Length ==> maxX[c] == old(maxX[c])
    ensures forall c :: g.numTiles <= c < minY.Length ==> minY[c] == old(minY[c])
    ensures forall c :: g.numTiles <= c < maxY.Length ==> maxY[c] == old(maxY[c])
  {
    var tileWidthPx := cw / g.numTilesX;
    var tileHeightPx := ch / g.numTilesY;
    var tileCtr := 0;
    for x := 0 to g.numTilesX
      invariant tileCtr == x * g.numTilesY <= g.numTiles
      invariant forall c :: 0 <= c < tileCtr ==> Rect(minX[c], maxX[c], minY[c], maxY[c]) == TileRect(g, cw, ch, c)
      invariant forall c :: tileCtr <= c < minX.Length ==> minX[c] == old(minX[c])
      invariant forall c :: tileCtr <= c < maxX.Length ==> maxX[c] == old(maxX[c])
      invariant forall c :: tileCtr <= c < minY.Length ==> minY[c] == old(minY[c])
      invariant forall c :: tileCtr <= c < maxY.Length ==> maxY[c] == old(maxY[c])
    {
      for y := 0 to g.numTilesY
        invariant tileCtr == x * g.numTilesY + y <= g.numTiles
        invariant forall c :: 0 <= c < tileCtr ==> Rect(minX[c], maxX[c], minY[c], maxY[c]) == TileRect(g, cw, ch, c)
        invariant forall c :: tileCtr <= c < minX.Length ==> minX[c] == old(minX[c])
        invariant forall c :: tileCtr <= c < maxX.Length ==> maxX[c] == old(maxX[c])
        invariant forall c :: tileCtr <= c < minY.Length ==> minY[c] == old(minY[c])
        invariant forall c :: tileCtr <= c < maxY.Length ==> maxY[c] == old(maxY[c])
      {
        SlotRect(g, cw, ch, x, y);
        minX[tileCtr] := tileWidthPx * x;
        maxX[tileCtr] := minX[tileCtr] + tileWidthPx;
        minY[tileCtr] := tileHeightPx * y;
        maxY[tileCtr] := minY[tileCtr] + tileHeightPx;
        tileCtr := tileCtr + 1;
      }
      assert (x + 1) * g.numTilesY == x * g.numTilesY + g.numTilesY;
    }
  }

  /** tile_area_vectors: the colour batches of one tile, tile_width_px / Lanes to a row (SimpleTiling.cpp:345-347). */
  function TileArea(g: Grid, cw: nat, ch: nat): nat
    requires WellShaped(g)
  {
    (TileWidth(g, cw) / Lanes) * TileHeight(g, ch)
  }

  /**
   * Tiles narrower than one batch (a canvas narrower than the grid has
   * columns, say) are zero batches in area, so the strip storage setup gives
   * them (SimpleTiling.cpp:358) has no room for even one blocked row.
   */
  lemma NarrowTileHasNoArea(g: Grid, cw: nat, ch: nat)
    requires WellShaped(g) && TileWidth(g, cw) < Lanes
    ensures TileArea(g, cw, ch) == 0
  {
  }

  /**
   * Setup's pool fits in mem_budget (SimpleTiling.cpp:272): every tile's
   * buffer, staging buffer and strip storage, then the back buffer
   * (:341-363). alloc_array never checks the budget (:283-289), so a larger
   * setup writes past the pool; callers of setup must stay within it.
   */
  predicate FitsBudget(n: nat, cw: nat, ch: nat)
    requires 1 <= n <= MaxTiles
  {
    var g := SetupGrid(n);
    Allocator.PoolBytes(g.numTiles, TileArea(g, cw, ch), cw, ch) <= Allocator.MemBudget
  }

  /** Four tiles on a 3840x2160 canvas do not fit, so setup excludes them. */
  lemma UhdSetupOverBudget()
    ensures !FitsBudget(4, 3840, 2160)
  {
    assert IsRoot(2, 4);
    GridShapeRule(4);
    Allocator.BudgetTooSmallForUhd();
  }

  /**
   * How setup's per-tile storage fits together: one of each per tile, every
   * piece separate from the others, and every buffer area batches long.
   */
  ghost predicate Storage(n: nat, area: nat, canvasArea: nat,
                          draws: seq<DrawQueue>, drawRepr: set<object>,
                          updates: seq<UpdateQueue>, updateRepr: set<object>,
                          buffers: seq<array<ColorBatch>>, staging: seq<array<ColorBatch>>,
                          strips: seq<FastVec>, back: array<uint32>)
  {
    && |draws| == n && |updates| == n && |buffers| == n && |staging| == n && |strips| == n
    && (forall t, u :: 0 <= t < n && 0 <= u < n && t != u ==>
          && draws[t].Repr !! draws[u].Repr
          && updates[t].Repr !! updates[u].Repr
          && buffers[t] != buffers[u]
          && staging[t] != staging[u]
          && strips[t] != strips[u]
          && strips[t].data != strips[u].data)
    && (forall t :: 0 <= t < n ==>
          && draws[t] in draws[t].Repr && draws[t].Repr <= drawRepr
          && updates[t] in updates[t].Repr && updates[t].Repr <= updateRepr)
    && drawRepr !! updateRepr
    && (forall t :: 0 <= t < n ==>
          && buffers[t] !in drawRepr + updateRepr
          && staging[t] !in drawRepr + updateRepr
          && strips[t] !in drawRepr + updateRepr
          && strips[t].data !in drawRepr + updateRepr)
    && back !in drawRepr + updateRepr
    && (forall t, u :: 0 <= t < n && 0 <= u < n ==> buffers[t] != staging[u])
    && (forall t :: 0 <= t < n ==>
          && buffers[t].Length == area
          && staging[t].Length == area
          && strips[t].data.Length == area
          && strips[t].data != back)
    && back.Length == canvasArea
  }

  /**
   * The allocation part of setup (SimpleTiling.cpp:348-363): zeroed queues,
   * then per tile a tile buffer, a staging buffer and strip storage of area
   * batches each, then the back buffer.
   */
  method AllocateStorage(n: nat, area: nat, canvasArea: nat, ghost earlier: set<object>)
    returns (draws: seq<DrawQueue>, ghost drawRepr: set<object>,
             updates: seq<UpdateQueue>, ghost updateRepr: set<object>,
             buffers: seq<array<ColorBatch>>, staging: seq<array<ColorBatch>>,
             strips: seq<FastVec>, back: array<uint32>, ghost owned: set<object>)
    ensures Storage(n, area, canvasArea, draws, drawRepr, updates, updateRepr, buffers, staging, strips, back)
    ensures fresh(owned) && earlier !! owned && drawRepr + updateRepr <= owned && back in owned
    ensures forall t :: 0 <= t < n ==>
      buffers[t] in owned && staging[t] in owned && strips[t] in owned && strips[t].data in owned
    ensures forall t :: 0 <= t < n ==>
      && draws[t].Valid() && draws[t].front == 0 && draws[t].Contents() == []
      && updates[t].Valid() && updates[t].front == 0 && updates[t].Contents() == []
      && strips[t].Valid() && strips[t].front == 0 && strips[t].Contents() == []
  {
    draws, drawRepr := NewQueues(n);
    updates, updateRepr := NewQueues(n);
    ghost var bufferRepr, stagingRepr, stripRepr;
    buffers, bufferRepr := NewBuffers(n, area);
    staging, stagingRepr := NewBuffers(n, area);
    strips, stripRepr := NewStrips(n, area);
    back := new uint32[canvasArea];
    owned := drawRepr + updateRepr + bufferRepr + stagingRepr + stripRepr + {back};
  }

  /**
   * The library's shared state after setup: the canvas, the grid, the
   * per-tile bounds, states, job queues, tile and staging buffers, blocked
   * strip lists, and the back buffer. Slots of the 64-entry arrays at or
   * beyond numTiles are never read.
   */
  class Scheduler {
    const canvasWidth: nat
    const canvasHeight: nat
    const numTiles: nat
    const numTilesX: nat
    const numTilesY: nat
    const tileMinX: array<nat>
    const tileMaxX: array<nat>
    const tileMinY: array<nat>
    const tileMaxY: array<nat>
    const tileStates: array<TileState>
    const drawQueues: seq<DrawQueue>
    const updateQueues: seq<UpdateQueue>
    const tileBuffers: seq<array<ColorBatch>>
    const stagingBuffers: seq<array<ColorBatch>>
    const blockedStrips: seq<FastVec>
    const backBuffer: array<uint32>
    /** Everything the draw queues and the update queues own. */
    ghost const DrawRepr: set<object>
    ghost const UpdateRepr: set<object>
    /** Every object setup allocates: the arrays, the queues and the strip lists with their storage. */
    ghost const Repr: set<object>

    function Shape(): Grid {
      Grid(numTiles, numTilesX, numTilesY)
    }

    /** tile_area_vectors: the number of colour batches in one tile buffer. */
    function AreaVectors(): nat
      requires WellShaped(Shape())
    {
      TileArea(Shape(), canvasWidth, canvasHeight)
    }

    /**
     * Tiles are a whole, non-zero number of colour batches wide; setup does
     * not check it. A width that is not a multiple of Lanes makes the draw
     * pass and the copy-out index past the tile buffers. A zero width draws
     * and copies nothing, but leaves no room to list a blocked row
     * (NarrowTileHasNoArea); it is left out here.
     */
    predicate LaneAligned()
      requires WellShaped(Shape())
    {
      TileWidth(Shape(), canvasWidth) % Lanes == 0 && TileWidth(Shape(), canvasWidth) >= Lanes
    }

    /** Sizes and separation of everything setup allocates. */
    ghost predicate Allocated() {
      && 1 <= numTiles <= MaxTiles
      && WellShaped(Shape())
      && canvasWidth < 0x1_0000_0000 && canvasHeight < 0x1_0000_0000
      && canvasWidth * canvasHeight < 0x1_0000_0000
      && tileMinX.Length == MaxTiles && tileMaxX.Length == MaxTiles
      && tileMinY.Length == MaxTiles && tileMaxY.Length == MaxTiles
      && tileStates.Length == MaxTiles
      && tileMinX != tileMaxX && tileMinX != tileMinY && tileMinX != tileMaxY
      && tileMaxX != tileMinY && tileMaxX != tileMaxY && tileMinY != tileMaxY
      && tileMinX !in DrawRepr + UpdateRepr && tileMaxX !in DrawRepr + UpdateRepr
      && tileMinY !in DrawRepr + UpdateRepr && tileMaxY !in DrawRepr + UpdateRepr
      && tileStates !in DrawRepr + UpdateRepr
      && tileMinX in Repr && tileMaxX in Repr && tileMinY in Repr && tileMaxY in Repr
      && tileStates in Repr && backBuffer in Repr && DrawRepr + UpdateRepr <= Repr
      && Storage(numTiles, AreaVectors(), canvasWidth * canvasHeight,
                 drawQueues, DrawRepr, updateQueues, UpdateRepr,
                 tileBuffers, stagingBuffers, blockedStrips, backBuffer)
      && (forall t :: 0 <= t < numTiles ==>
            && tileBuffers[t] in Repr && stagingBuffers[t] in Repr
            && blockedStrips[t] in Repr && blockedStrips[t].data in Repr)
    }

    /**
     * The bounds arrays hold the rectangles of the layout rule. Only setup
     * writes them, so this holds from setup on; it is kept apart from Valid
     * and required only by the operations that read the bounds.
     */
    ghost predicate LayoutValid()
      requires Allocated()
      reads tileMinX, tileMaxX, tileMinY, tileMaxY
    {
      LaidOut(Shape(), canvasWidth, canvasHeight, tileMinX, tileMaxX, tileMinY, tileMaxY)
    }

    /** Every queue is well formed, and every queued draw job names its own tile as input. */
    ghost predicate QueuesValid()
      requires Allocated()
      reads DrawRepr, UpdateRepr
    {
      forall t :: 0 <= t < numTiles ==>
        && drawQueues[t].Valid()
        && updateQueues[t].Valid()
        && (forall k :: 0 <= k < drawQueues[t].front ==> drawQueues[t].inputs[k] == t as uint64)
    }

    ghost predicate Valid()
      reads this, DrawRepr, UpdateRepr, set v | v in blockedStrips
    {
      && Allocated()
      && QueuesValid()
      && (forall t :: 0 <= t < numTiles ==> blockedStrips[t].Valid())
    }

    /**
     * setup (SimpleTiling.cpp:293-363): choose the grid, lay out the tiles,
     * and give every tile empty queues, a tile buffer, a staging buffer and
     * an empty strip list, all in state Idle; then allocate the back buffer.
     */
    constructor (numTilesRequested: nat, windowWidth: nat, windowHeight: nat)
      requires 1 <= numTilesRequested <= MaxTiles
      requires windowWidth < 0x1_0000_0000 && windowHeight < 0x1_0000_0000
      requires windowWidth * windowHeight < 0x1_0000_0000
      requires FitsBudget(numTilesRequested, windowWidth, windowHeight)
      ensures Valid() && fresh(Repr)
      ensures LayoutValid()
      ensures canvasWidth == windowWidth && canvasHeight == windowHeight
      ensures Shape() == GridShape(numTilesRequested)
      ensures forall i :: 0 <= i < MaxTiles ==> tileStates[i] == Idle
      ensures forall t :: 0 <= t < numTiles ==>
        && drawQueues[t].Contents() == []
        && updateQueues[t].Contents() == []
        && blockedStrips[t].Contents() == []
    {
      var canvasArea: nat := windowWidth * windowHeight;
      var g, minX, maxX, minY, maxY := LayOut(numTilesRequested, windowWidth, windowHeight);
      var area := TileArea(g, windowWidth, windowHeight);
      canvasWidth, canvasHeight := windowWidth, windowHeight;
      numTiles, numTilesX, numTilesY := g.numTiles, g.numTilesX, g.numTilesY;
      tileMinX, tileMaxX, tileMinY, tileMaxY := minX, maxX, minY, maxY;
      var states := new TileState[MaxTiles](_ => Idle);
      tileStates := states;
      ghost var earlier: set<object> := {minX, maxX, minY, maxY, states};
      var draws, dr, updates, ur, buffers, staging, strips, back, owned :=
        AllocateStorage(g.numTiles, area, canvasArea, earlier);
      drawQueues, DrawRepr, updateQueues, UpdateRepr := draws, dr, updates, ur;
      tileBuffers, stagingBuffers, blockedStrips, backBuffer := buffers, staging, strips, back;
      Repr := earlier + owned;
      new;
      assert drawQueues == draws && updateQueues == updates && blockedStrips == strips;
      assert Shape() == g;
      assert Allocated();
    }

    /**
     * submit_draw_work_internal (SimpleTiling.cpp:135-139): append one job
     * to a tile's draw queue. Its one caller passes the tile's own index as
     * the wrapper input, which this precondition records.
     */
    method SubmitDrawWorkInternal(work: DrawWrapperRef, wrapperInputs: uint64, wrappedJob: PixelFn, tile: nat)
      requires Valid() && tile < numTiles && wrapperInputs == tile as uint64
      modifies drawQueues[tile].Repr
      ensures Valid()
      ensures drawQueues[tile].Contents() ==
        Appended(old(drawQueues[tile].Contents()), Entry(work, wrappedJob, wrapperInputs))
      ensures forall t :: 0 <= t < numTiles && t != tile ==> drawQueues[t].Contents() == old(drawQueues[t].Contents())
    {
      ghost var oldFront := drawQueues[tile].front;
      drawQueues[tile].AppendJob(work, wrappedJob, wrapperInputs);
      forall t | 0 <= t < numTiles
        ensures drawQueues[t].Valid()
        ensures forall k :: 0 <= k < drawQueues[t].front ==> drawQueues[t].inputs[k] == t as uint64
        ensures t != tile ==> drawQueues[t].Contents() == old(drawQueues[t].Contents())
      {
        if t == tile {
          forall k | 0 <= k < drawQueues[t].front
            ensures drawQueues[t].inputs[k] == t as uint64
          {
            assert drawQueues[t].inputs[k] == drawQueues[t].inputs[..][k];
            if k < oldFront {
              assert drawQueues[t].inputs[..][k] == old(drawQueues[t].inputs[..])[k];
            }
          }
        } else {
          assert drawQueues[t].Repr !! drawQueues[tile].Repr;
        }
      }
    }

    /** submit_update_work_internal (SimpleTiling.cpp:141-145): append one job to a tile's update queue. */
    method SubmitUpdateWorkInternal(work: UpdateWrapperRef, wrapperInputs: uint64, wrappedJob: UpdateJobRef, tile: nat)
      requires Valid() && tile < numTiles
      modifies updateQueues[tile].Repr
      ensures Valid()
      ensures updateQueues[tile].Contents() ==
        Appended(old(updateQueues[tile].Contents()), Entry(work, wrappedJob, wrapperInputs))
    {
      updateQueues[tile].AppendJob(work, wrappedJob, wrapperInputs);
    }

    /** One iteration of submit_draw_work's loop (SimpleTiling.cpp:238-248), for tile i. */
    method SubmitToTile(work: PixelFn, tileMask: bv64, i: nat)
      requires Valid() && i < numTiles
      modifies tileStates, drawQueues[i].Repr
      ensures Valid()
      ensures forall j :: 0 <= j < numTiles ==>
        drawQueues[j].Contents() ==
          if j == i && Selected(tileMask, j) then Appended(old(drawQueues[j].Contents()), Entry(DrawWrapperFn, work, j as uint64))
          else old(drawQueues[j].Contents())
      ensures forall j :: 0 <= j < MaxTiles ==>
        tileStates[j] == if j == i && !Selected(tileMask, j) && old(tileStates[j]) != Uploading then Idle else old(tileStates[j])
    {
      if Selected(tileMask, i) {
        SubmitDrawWorkInternal(DrawWrapperFn, i as uint64, work, i);
      } else if tileStates[i] != Uploading {
        tileStates[i] := Idle;
      }
    }

    /**
     * submit_draw_work (SimpleTiling.cpp:234-250): every tile whose mask bit
     * is set gets one draw job naming it; every other tile that is not
     * Uploading is flagged Idle, and an Uploading one is left alone.
     */
    method SubmitDrawWork(work: PixelFn, tileMask: bv64)
      requires Valid()
      modifies tileStates, DrawRepr
      ensures Valid()
      ensures forall i :: 0 <= i < numTiles ==>
        drawQueues[i].Contents() ==
          if Selected(tileMask, i) then Appended(old(drawQueues[i].Contents()), Entry(DrawWrapperFn, work, i as uint64))
          else old(drawQueues[i].Contents())
      ensures forall i :: 0 <= i < numTiles ==>
        tileStates[i] == if !Selected(tileMask, i) && old(tileStates[i]) != Uploading then Idle else old(tileStates[i])
      ensures forall i :: numTiles <= i < MaxTiles ==> tileStates[i] == old(tileStates[i])
      ensures unchanged(tileMinX, tileMaxX, tileMinY, tileMaxY, backBuffer) && unchanged(UpdateRepr)
      ensures old(LayoutValid()) ==> LayoutValid()
      ensures forall t :: 0 <= t < numTiles ==>
        unchanged(tileBuffers[t], stagingBuffers[t], blockedStrips[t], blockedStrips[t].data)
    {
      for i := 0 to numTiles
        invariant Valid()
        invariant forall j :: 0 <= j < numTiles ==>
          drawQueues[j].Contents() ==
            if j < i && Selected(tileMask, j) then Appended(old(drawQueues[j].Contents()), Entry(DrawWrapperFn, work, j as uint64))
            else old(drawQueues[j].Contents())
        invariant forall j :: 0 <= j < MaxTiles ==>
          tileStates[j] == if j < i && !Selected(tileMask, j) && old(tileStates[j]) != Uploading then Idle else old(tileStates[j])
      {
        SubmitToTile(work, tileMask, i);
      }
    }

    /**
     * consume_job on tile t's draw queue (SimpleTiling.cpp:61-75): the newest
     * entry is taken off. Every draw entry names tile t as its input, so the
     * draw wrapper it is handed to works on tile t.
     */
    method ConsumeDraw(t: nat) returns (e: Entry<DrawWrapperRef, PixelFn>)
      requires Valid() && t < numTiles && drawQueues[t].front > 0
      modifies drawQueues[t]
      ensures Valid()
      ensures e == Entry(DrawWrapperFn, e.job, t as uint64)
      ensures old(drawQueues[t].Contents()) == drawQueues[t].Contents() + [e]
      ensures forall j :: 0 <= j < numTiles && j != t ==> drawQueues[j].front == old(drawQueues[j].front)
    {
      e := drawQueues[t].ConsumeJob();
      assert e.wrapper.DrawWrapperFn?;
      forall j | 0 <= j < numTiles
        ensures drawQueues[j].Valid()
        ensures forall k :: 0 <= k < drawQueues[j].front ==> drawQueues[j].inputs[k] == j as uint64
        ensures j != t ==> drawQueues[j].front == old(drawQueues[j].front)
      {
        if j != t {
          assert drawQueues[j].Repr !! drawQueues[t].Repr;
        }
      }
    }

    /** consume_job on tile t's update queue (SimpleTiling.cpp:61-75): the newest entry is taken off. */
    method ConsumeUpdate(t: nat) returns (e: Entry<UpdateWrapperRef, UpdateJobRef>)
      requires Valid() && t < numTiles && updateQueues[t].front > 0
      modifies updateQueues[t]
      ensures Valid()
      ensures old(updateQueues[t].Contents()) == updateQueues[t].Contents() + [e]
    {
      e := updateQueues[t].ConsumeJob();
      forall j | 0 <= j < numTiles
        ensures updateQueues[j].Valid()
      {
        if j != t {
          assert updateQueues[j].Repr !! updateQueues[t].Repr;
        }
      }
    }

    /** tile_width_vectors: the number of colour batches in one tile row. */
    function RowVectors(): (n: nat)
      requires WellShaped(Shape())
      ensures LaneAligned() ==> n > 0 && Lanes * n == TileWidth(Shape(), canvasWidth)
    {
      TileWidth(Shape(), canvasWidth) / Lanes
    }

    /** What a complete draw pass of job leaves in tile t's buffer. */
    ghost function TileImage(t: nat, job: PixelFn): (img: seq<ColorBatch>)
      requires Allocated() && LaneAligned() && t < numTiles
      ensures |img| == AreaVectors()
    {
      Image(job, canvasWidth, TileRect(Shape(), canvasWidth, canvasHeight, t), RowVectors(), AreaVectors())
    }

    /**
     * What one draw pass of job leaves on tile t, whose tile buffer, staging
     * buffer and state were buffer0, staging0 and state0 before it (see
     * DrawWrapper): with k the number of leading rows observed Uploading,
     * rows 0..k-1 of the image are in the staging buffer; if the tile is
     * still running, the whole image is in the tile buffer, the strip list is
     * empty and the tile is Uploading; otherwise rows k.. are in the tile
     * buffer, rows 0..k-1 are listed as blocked strips, and the tile is
     * Processing if some row was not blocked.
     */
    ghost predicate DrawnTile(t: nat, job: PixelFn, observed: seq<TileState>, running: bool,
                              buffer0: seq<ColorBatch>, staging0: seq<ColorBatch>, state0: TileState)
      requires Allocated() && LaneAligned() && t < numTiles
      requires |observed| == TileHeight(Shape(), canvasHeight)
      requires |buffer0| == AreaVectors() && |staging0| == AreaVectors()
      reads tileStates, tileBuffers[t], stagingBuffers[t], blockedStrips[t], blockedStrips[t].data
    {
      var k := LeadingUploads(observed);
      && (running ==> tileBuffers[t][..] == TileImage(t, job))
      && (!running ==> RowsFrom(tileBuffers[t][..], TileImage(t, job), buffer0, RowVectors(), k, |observed|))
      && RowsFrom(stagingBuffers[t][..], TileImage(t, job), staging0, RowVectors(), 0, k)
      && blockedStrips[t].Valid()
      && blockedStrips[t].Contents() == (if running then [] else Rows(k))
      && tileStates[t] ==
        if running then Uploading
        else if k < |observed| then Processing
        else if |observed| > 0 then Uploading
        else state0
    }

    /**
     * draw_wrapper (SimpleTiling.cpp:147-232) run by tile t's worker for one
     * draw job. observed[rel] is the tile state the worker reads before row
     * rel, as stored by the other threads; running is tile_running[t] after
     * the pass. Let k be the number of leading rows observed Uploading:
     * those rows are drawn into the staging buffer and listed as blocked
     * strips, the first row after them flags the tile Processing, and the
     * remaining rows are drawn into the tile buffer. If the tile is still
     * running, the wait at :206-213 is taken to end, the staged rows are
     * copied into the tile buffer, the strip list is cleared and the tile is
     * flagged Uploading: the whole tile buffer then holds this job's colours.
     */
    method DrawWrapper(t: nat, job: PixelFn, observed: seq<TileState>, running: bool)
      requires Valid() && LayoutValid() && t < numTiles && LaneAligned()
      requires |observed| == TileHeight(Shape(), canvasHeight)
      requires blockedStrips[t].front == 0
      modifies tileStates, tileBuffers[t], stagingBuffers[t], blockedStrips[t], blockedStrips[t].data
      ensures Valid()
      ensures DrawnTile(t, job, observed, running, old(tileBuffers[t][..]), old(stagingBuffers[t][..]), old(tileStates[t]))
      ensures forall j :: 0 <= j < MaxTiles && j != t ==> tileStates[j] == old(tileStates[j])
    {
      var minX, maxX, minY, maxY := tileMinX[t], tileMaxX[t], tileMinY[t], tileMaxY[t];
      var r := Rect(minX, maxX, minY, maxY);
      assert r == TileRect(Shape(), canvasWidth, canvasHeight, t);
      var rows := maxY - minY;
      var perRow := (maxX - minX) / Lanes;
      assert perRow == RowVectors() && maxX == minX + Lanes * perRow;
      DrawPass(tileStates, t, tileBuffers[t], stagingBuffers[t], blockedStrips[t], job, canvasWidth, r, perRow, rows, observed, running);
    }

    /**
     * The draw half of one iteration of thread_main's loop for tile t
     * (SimpleTiling.cpp:260-263): if a draw job is queued, the newest one is
     * taken off and its draw pass run, with observed and running as for
     * DrawWrapper. A pass that ends with the tile still running leaves the
     * strip list empty, ready for the next draw job.
     */
    method DrawStep(t: nat, observed: seq<TileState>, running: bool) returns (drawn: Option<PixelFn>)
      requires Valid() && LayoutValid() && t < numTiles && LaneAligned()
      requires |observed| == TileHeight(Shape(), canvasHeight)
      requires blockedStrips[t].front == 0
      modifies tileStates, tileBuffers[t], stagingBuffers[t], blockedStrips[t], blockedStrips[t].data, drawQueues[t]
      ensures Valid()
      ensures old(drawQueues[t].front) == 0 ==>
        && drawn == None
        && drawQueues[t].Contents() == old(drawQueues[t].Contents())
        && unchanged(tileBuffers[t], stagingBuffers[t], blockedStrips[t])
        && tileStates[t] == old(tileStates[t])
      ensures old(drawQueues[t].front) > 0 ==>
        && drawn.Some?
        && old(drawQueues[t].Contents()) == drawQueues[t].Contents() + [Entry(DrawWrapperFn, drawn.value, t as uint64)]
        && DrawnTile(t, drawn.value, observed, running, old(tileBuffers[t][..]), old(stagingBuffers[t][..]), old(tileStates[t]))
      ensures running ==> blockedStrips[t].front == 0
      ensures forall j :: 0 <= j < MaxTiles && j != t ==> tileStates[j] == old(tileStates[j])
    {
      drawn := None;
      if drawQueues[t].front > 0 {
        var e := ConsumeDraw(t);
        var tile := e.input as nat;
        assert tile == t;
        ghost var q := drawQueues[t];
        ghost var pending := q.Contents();
        DrawWrapper(tile, e.job, observed, running);
        assert q.Contents() == pending by {
          assert q as object != blockedStrips[t] && q.inputs as object != blockedStrips[t].data;
        }
        drawn := Some(e.job);
      }
    }

    /**
     * One iteration of thread_main's loop for tile t (SimpleTiling.cpp:255-267):
     * the draw half (DrawStep), then, if an update job is queued, the newest
     * one is taken off and handed back, since what an update wrapper does is
     * up to the caller.
     */
    method WorkerStep(t: nat, observed: seq<TileState>, running: bool)
      returns (drawn: Option<PixelFn>, update: Option<Entry<UpdateWrapperRef, UpdateJobRef>>)
      requires Valid() && LayoutValid() && t < numTiles && LaneAligned()
      requires |observed| == TileHeight(Shape(), canvasHeight)
      requires blockedStrips[t].front == 0
      modifies tileStates, tileBuffers[t], stagingBuffers[t], blockedStrips[t], blockedStrips[t].data
      modifies drawQueues[t], updateQueues[t]
      ensures Valid()
      ensures old(drawQueues[t].front) == 0 ==>
        && drawn == None
        && drawQueues[t].Contents() == old(drawQueues[t].Contents())
        && unchanged(tileBuffers[t], stagingBuffers[t], blockedStrips[t])
        && tileStates[t] == old(tileStates[t])
      ensures old(drawQueues[t].front) > 0 ==>
        && drawn.Some?
        && old(drawQueues[t].Contents()) == drawQueues[t].Contents() + [Entry(DrawWrapperFn, drawn.value, t as uint64)]
        && DrawnTile(t, drawn.value, observed, running, old(tileBuffers[t][..]), old(stagingBuffers[t][..]), old(tileStates[t]))
      ensures old(updateQueues[t].front) == 0 ==>
        update == None && updateQueues[t].Contents() == old(updateQueues[t].Contents())
      ensures old(updateQueues[t].front) > 0 ==>
        update.Some? && old(updateQueues[t].Contents()) == updateQueues[t].Contents() + [update.value]
      ensures running ==> blockedStrips[t].front == 0
      ensures forall j :: 0 <= j < MaxTiles && j != t ==> tileStates[j] == old(tileStates[j])
    {
      drawn := DrawStep(t, observed, running);
      update := UpdateStep(t);
    }

    /**
     * The update half of one iteration of thread_main's loop for tile t
     * (SimpleTiling.cpp:264-267): if an update job is queued, the newest one
     * is taken off and handed back.
     */
    method UpdateStep(t: nat) returns (update: Option<Entry<UpdateWrapperRef, UpdateJobRef>>)
      requires Valid() && t < numTiles
      modifies updateQueues[t]
      ensures Valid()
      ensures old(updateQueues[t].front) == 0 ==>
        update == None && updateQueues[t].Contents() == old(updateQueues[t].Contents())
      ensures old(updateQueues[t].front) > 0 ==>
        update.Some? && old(updateQueues[t].Contents()) == updateQueues[t].Contents() + [update.value]
    {
      update := None;
      if updateQueues[t].front > 0 {
        var e := ConsumeUpdate(t);
        update := Some(e);
      }
    }

    /** The tile that owns canvas index q (row q / canvasWidth, column q % canvasWidth), if any. */
    ghost function Owner(q: nat): (c: Option<nat>)
      requires Allocated()
      ensures c.Some? ==> c.value < numTiles && canvasWidth > 0
    {
      if canvasWidth == 0 then None
      else TileAt(Shape(), canvasWidth, canvasHeight, q % canvasWidth, q / canvasWidth)
    }

    /** The pixel of tile c's buffer that belongs at canvas index q, for q inside tile c. */
    ghost function TilePixel(c: nat, q: nat): uint32
      requires Allocated() && LaneAligned() && Owner(q) == Some(c)
      reads tileBuffers[c]
    {
      PackedArea(Lanes, TileWidth(Shape(), canvasWidth), TileHeight(Shape(), canvasHeight));
      TilePixelOf(tileBuffers[c][..], Shape(), canvasWidth, canvasHeight, c, q)
    }

    /**
     * Once tile c's buffer holds a finished draw pass of job, the pixel it
     * contributes at canvas index q is the job's colour for pixel q: lane l
     * of the job applied to the batch starting l pixels before q.
     */
    lemma FinishedTileShown(c: nat, job: PixelFn, q: nat)
      requires Allocated() && LaneAligned() && Owner(q) == Some(c)
      requires tileBuffers[c][..] == TileImage(c, job)
      ensures var l := (q % canvasWidth - TileRect(Shape(), canvasWidth, canvasHeight, c).minX) % Lanes;
              l <= q && TilePixel(c, q) == job(q - l)[l]
    {
      DrawnPixelShown(job, Shape(), canvasWidth, canvasHeight, c, q);
    }

    /**
     * Once tile c's buffer holds a finished draw pass of job and the back
     * buffer shows tile c's pixels, every canvas pixel tile c owns shows
     * the job's colour for that pixel.
     */
    lemma FinishedTileOnCanvas(c: nat, job: PixelFn)
      requires Allocated() && LaneAligned() && c < numTiles
      requires tileBuffers[c][..] == TileImage(c, job)
      requires forall q :: 0 <= q < backBuffer.Length && Owner(q) == Some(c) ==> backBuffer[q] == TilePixel(c, q)
      ensures forall q :: 0 <= q < backBuffer.Length && Owner(q) == Some(c) ==>
        var l := (q % canvasWidth - TileRect(Shape(), canvasWidth, canvasHeight, c).minX) % Lanes;
        l <= q && backBuffer[q] == job(q - l)[l]
    {
      forall q | 0 <= q < backBuffer.Length && Owner(q) == Some(c)
        ensures var l := (q % canvasWidth - TileRect(Shape(), canvasWidth, canvasHeight, c).minX) % Lanes;
                l <= q && backBuffer[q] == job(q - l)[l]
      {
        FinishedTileShown(c, job, q);
      }
    }

    /**
     * The copy-out of one uploading tile (SimpleTiling.cpp:415-430): every
     * canvas pixel of tile i shows the tile's pixel; the rest of the back
     * buffer is unchanged.
     */
    method CopyOut(i: nat)
      requires Valid() && LayoutValid() && LaneAligned() && i < numTiles
      modifies backBuffer
      ensures forall q :: 0 <= q < backBuffer.Length ==>
        backBuffer[q] == if Owner(q) == Some(i) then TilePixel(i, q) else old(backBuffer[q])
    {
      var minY, minX, maxY, maxX := tileMinY[i], tileMinX[i], tileMaxY[i], tileMaxX[i];
      var r := Rect(minX, maxX, minY, maxY);
      assert r == TileRect(Shape(), canvasWidth, canvasHeight, i);
      TileInsideCanvas(Shape(), canvasWidth, canvasHeight, i);
      PackedArea(Lanes, TileWidth(Shape(), canvasWidth), TileHeight(Shape(), canvasHeight));
      MulMono(maxY, canvasHeight, canvasWidth);
      assert canvasWidth > 0;
      CopyTileOut(backBuffer, tileBuffers[i], canvasWidth, r);
      OwnedPixelsCopied(backBuffer[..], old(backBuffer[..]), tileBuffers[i][..], Shape(), canvasWidth, canvasHeight, i);
    }

    /**
     * swap_tile_buffers (SimpleTiling.cpp:408-441): every tile found in
     * Uploading is copied out and set back to Processing; the back buffer
     * then shows, at every pixel of such a tile, that tile's pixel, and is
     * unchanged elsewhere.
     */
    method SwapTileBuffers()
      requires Valid() && LayoutValid() && LaneAligned()
      modifies tileStates, backBuffer
      ensures forall i :: 0 <= i < MaxTiles ==>
        tileStates[i] == if i < numTiles && old(tileStates[i]) == Uploading then Processing else old(tileStates[i])
      ensures forall q :: 0 <= q < backBuffer.Length ==>
        backBuffer[q] ==
          if Owner(q).Some? && old(tileStates[Owner(q).value]) == Uploading then TilePixel(Owner(q).value, q)
          else old(backBuffer[q])
    {
      for i := 0 to numTiles
        invariant forall j :: 0 <= j < MaxTiles ==>
          tileStates[j] == if j < i && old(tileStates[j]) == Uploading then Processing else old(tileStates[j])
        invariant forall q :: 0 <= q < backBuffer.Length ==>
          backBuffer[q] ==
            if Owner(q).Some? && Owner(q).value < i && old(tileStates[Owner(q).value]) == Uploading
            then TilePixel(Owner(q).value, q)
            else old(backBuffer[q])
      {
        if tileStates[i] == Uploading {
          CopyOut(i);
          tileStates[i] := Processing;
        }
      }
    }
  }

  /**
   * setup followed by submit_draw_work of job with only tile 0's mask bit
   * set: tile 0's draw queue then holds exactly that job, naming tile 0,
   * and every tile is still Idle.
   */
  method SetUpAndSubmit(numTilesRequested: nat, windowWidth: nat, windowHeight: nat, job: PixelFn)
    returns (s: Scheduler)
    requires 1 <= numTilesRequested <= MaxTiles
    requires windowWidth < 0x1_0000_0000 && windowHeight < 0x1_0000_0000
    requires windowWidth * windowHeight < 0x1_0000_0000
    requires FitsBudget(numTilesRequested, windowWidth, windowHeight)
    ensures fresh(s.Repr) && s.Valid() && s.LayoutValid()
    ensures s.canvasWidth == windowWidth && s.canvasHeight == windowHeight
    ensures s.Shape() == GridShape(numTilesRequested)
    ensures s.drawQueues[0].front == 1 && s.drawQueues[0].Contents() == [Entry(DrawWrapperFn, job, 0)]
    ensures s.blockedStrips[0].front == 0
    ensures forall i :: 0 <= i < MaxTiles ==> s.tileStates[i] == Idle
  {
    s := new Scheduler(numTilesRequested, windowWidth, windowHeight);
    assert Selected(1, 0);
    s.SubmitDrawWork(job, 1);
    assert s.drawQueues[0].front == |s.drawQueues[0].Contents()|;
  }

  /**
   * One iteration of tile 0's worker loop, with the tile running
   * throughout, on a scheduler whose only draw job for tile 0 is job: the
   * job is taken off and drawn, so tile 0's buffer holds its image and the
   * tile is Uploading.
   */
  method WorkTile0(s: Scheduler, job: PixelFn, observed: seq<TileState>)
    requires s.Valid() && s.LayoutValid() && 0 < s.numTiles && s.LaneAligned()
    requires |observed| == TileHeight(s.Shape(), s.canvasHeight)
    requires s.drawQueues[0].front == 1 && s.drawQueues[0].Contents() == [Entry(DrawWrapperFn, job, 0)]
    requires s.blockedStrips[0].front == 0
    modifies s.Repr
    ensures s.Valid() && s.LayoutValid()
    ensures s.tileBuffers[0][..] == s.TileImage(0, job) && s.tileStates[0] == Uploading
  {
    ghost var pending := s.drawQueues[0].Contents();
    var drawn, _ := s.WorkerStep(0, observed, true);
    assert drawn == Some(job) by {
      assert pending == s.drawQueues[0].Contents() + [Entry(DrawWrapperFn, drawn.value, 0)];
      assert pending[0] == Entry(DrawWrapperFn, drawn.value, 0);
    }
  }

  /**
   * One frame of tile 0 on a freshly set-up scheduler: setup, a draw job
   * submitted with only tile 0's mask bit set, one iteration of tile 0's
   * worker loop during which the tile keeps running, then
   * swap_tile_buffers. Every canvas pixel owned by tile 0 then shows the
   * job's colour for that pixel, whatever states the worker observed.
   */
  method FirstFrame(numTilesRequested: nat, windowWidth: nat, windowHeight: nat, job: PixelFn, observed: seq<TileState>)
    returns (s: Scheduler)
    requires 1 <= numTilesRequested <= MaxTiles
    requires windowWidth < 0x1_0000_0000 && windowHeight < 0x1_0000_0000
    requires windowWidth * windowHeight < 0x1_0000_0000
    requires FitsBudget(numTilesRequested, windowWidth, windowHeight)
    requires TileWidth(SetupGrid(numTilesRequested), windowWidth) % Lanes == 0
    requires TileWidth(SetupGrid(numTilesRequested), windowWidth) >= Lanes
    requires |observed| == TileHeight(SetupGrid(numTilesRequested), windowHeight)
    ensures fresh(s.Repr) && s.Allocated() && s.LaneAligned()
    ensures forall q :: 0 <= q < s.backBuffer.Length && s.Owner(q) == Some(0) ==>
      var l := (q % s.canvasWidth - TileRect(s.Shape(), s.canvasWidth, s.canvasHeight, 0).minX) % Lanes;
      l <= q && s.backBuffer[q] == job(q - l)[l]
  {
    s := SetUpAndSubmit(numTilesRequested, windowWidth, windowHeight, job);
    WorkTile0(s, job, observed);
    s.SwapTileBuffers();
    s.FinishedTileOnCanvas(0, job);
  }
}
