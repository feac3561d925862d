/** What one frame's buffer fill is meant to produce, as values: the grid
    order the passes visit, the samples written for one pixel, and the
    whole position, depth-to-colour map and colour sequences a full pass
    leaves in its buffers. */
module PointCloud {
  import opened Kinect

  datatype Option<T> = None | Some(value: T)

  /** A position coordinate as the source stores it: the float num / w,
      with the division left unevaluated. */
  datatype Scaled = Scaled(num: real, w: real)

  /** A colour channel as the source stores it: the float raw / 255.0f.
      The black written for an unmapped pixel, 0.0f, is Intensity(0). */
  datatype Intensity = Intensity(raw: byte)

  // ---------------------------------------------------------------------
  // Buffer sizing

  // The sizes are written out as literals; SizesAgree derives each from
  // the grid as the program computes it.

  /** Size in bytes of each GPU buffer (three 4-byte floats per point). */
  const DataSize: int := 3_686_400
  const FloatSize: int := 4
  /** Floats each GPU buffer holds. */
  const BufferFloats: int := 921_600
  /** Entries of the depth-to-colour map: two per pixel. */
  const MapLength: int := 614_400
  /** Bytes of one colour frame. */
  const FrameBytes: int := 1_228_800

  /** The literal sizes are the products and quotient the program uses:
      width * height * 3 * 4 bytes per buffer, dataSize / sizeof(float)
      floats in it, width * height * 2 map entries, and four bytes per
      colour pixel. */
  lemma SizesAgree()
    ensures Pixels == Width * Height
    ensures DataSize == Width * Height * 3 * 4
    ensures BufferFloats == DataSize / FloatSize == 3 * Pixels
    ensures MapLength == Width * Height * 2 == 2 * Pixels
    ensures FrameBytes == Pixels * BytesPerColourPixel
  {
  }

  // ---------------------------------------------------------------------
  // Grid order: pixel k of a pass is at column k % Width, row k / Width

  predicate InGrid(x: int, y: int) {
    0 <= x < Width && 0 <= y < Height
  }

  function Index(x: int, y: int): int {
    y * Width + x
  }

  function Col(k: int): int {
    k % Width
  }

  function Row(k: int): int {
    k / Width
  }

  /** The row-major numbering is a bijection between the grid and
      [0, Pixels): every cell is visited once, at step Index(x, y). */
  lemma RowMajorBijection(x: int, y: int, k: int)
    ensures InGrid(x, y) ==> 0 <= Index(x, y) < Pixels && Col(Index(x, y)) == x && Row(Index(x, y)) == y
    ensures 0 <= k < Pixels ==> InGrid(Col(k), Row(k)) && Index(Col(k), Row(k)) == k
  {
  }

  /** Row y of a pass starts where row y - 1 ends, Width steps after it
      started; the last row ends at Pixels. */
  lemma RowStarts(y: int)
    requires 0 <= y <= Height
    ensures 0 <= Index(0, y) <= Pixels
    ensures y < Height ==> Index(0, y) + Width == Index(0, y + 1) <= Pixels
    ensures y == Height ==> Index(0, y) == Pixels
  {
  }

  // ---------------------------------------------------------------------
  // Depth pass

  /** The query both SDK services receive for the raw sample at (x, y):
      the decoded depth shifted left by three. */
  function QueryAt(sdk: Sdk, x: int, y: int, raw: ushort): (r: DepthQuery)
    ensures r.x == x && r.y == y
    ensures 0 <= r.depth < 0x8_0000 && r.depth % 8 == 0
  {
    DepthQuery(x, y, sdk.depthPixelToDepth(raw) * 8)
  }

  /** The three position values written for one query: x, y and z of the
      back-projected point, each over its w. */
  function PointSample(sdk: Sdk, q: DepthQuery): (r: seq<Scaled>)
    ensures |r| == 3
    ensures r[0].w == r[1].w == r[2].w == sdk.depthToSkeleton(q).w
  {
    var v := sdk.depthToSkeleton(q);
    [Scaled(v.x, v.w), Scaled(v.y, v.w), Scaled(v.z, v.w)]
  }

  /** The two map entries written for one query: the colour-frame column
      and row the lookup reports. */
  function MapEntry(sdk: Sdk, q: DepthQuery): (r: seq<long>)
    ensures |r| == 2
    ensures (r[0], r[1]) == sdk.colourFromDepth(q)
  {
    var (cx, cy) := sdk.colourFromDepth(q);
    [cx, cy]
  }

  /** Positions written by the first n steps of a depth pass. */
  function PositionsUpTo(sdk: Sdk, bits: seq<ushort>, n: nat): (r: seq<Scaled>)
    requires n <= |bits|
    ensures |r| == 3 * n
  {
    if n == 0 then []
    else PositionsUpTo(sdk, bits, n - 1) + PointSample(sdk, QueryAt(sdk, Col(n - 1), Row(n - 1), bits[n - 1]))
  }

  /** Map entries written by the first n steps of a depth pass. */
  function MapUpTo(sdk: Sdk, bits: seq<ushort>, n: nat): (r: seq<long>)
    requires n <= |bits|
    ensures |r| == 2 * n
  {
    if n == 0 then []
    else MapUpTo(sdk, bits, n - 1) + MapEntry(sdk, QueryAt(sdk, Col(n - 1), Row(n - 1), bits[n - 1]))
  }

  /** Step k of a depth pass owns positions 3k, 3k + 1 and 3k + 2: they
      hold the point of sample k at its grid cell. */
  lemma {:induction false} PositionsOfPixel(sdk: Sdk, bits: seq<ushort>, n: nat, k: nat)
    requires k < n <= |bits|
    ensures var p := PointSample(sdk, QueryAt(sdk, Col(k), Row(k), bits[k]));
            var r := PositionsUpTo(sdk, bits, n);
            r[3 * k] == p[0] && r[3 * k + 1] == p[1] && r[3 * k + 2] == p[2]
  {
    var prefix := PositionsUpTo(sdk, bits, n - 1);
    var last := PointSample(sdk, QueryAt(sdk, Col(n - 1), Row(n - 1), bits[n - 1]));
    assert PositionsUpTo(sdk, bits, n) == prefix + last;
    if k < n - 1 {
      PositionsOfPixel(sdk, bits, n - 1, k);
    }
  }

  /** Step k of a depth pass owns map entries 2k and 2k + 1. */
  lemma {:induction false} MapOfPixel(sdk: Sdk, bits: seq<ushort>, n: nat, k: nat)
    requires k < n <= |bits|
    ensures var e := MapEntry(sdk, QueryAt(sdk, Col(k), Row(k), bits[k]));
            var r := MapUpTo(sdk, bits, n);
            r[2 * k] == e[0] && r[2 * k + 1] == e[1]
  {
    var prefix := MapUpTo(sdk, bits, n - 1);
    var last := MapEntry(sdk, QueryAt(sdk, Col(n - 1), Row(n - 1), bits[n - 1]));
    assert MapUpTo(sdk, bits, n) == prefix + last;
    if k < n - 1 {
      MapOfPixel(sdk, bits, n - 1, k);
    }
  }

  /** After a full depth pass, the cell (x, y) owns positions and map
      entries at k = y * Width + x, derived from the k-th depth sample, and
      both come from one and the same query (x, y, depth << 3). */
  lemma DepthPassCell(sdk: Sdk, bits: seq<ushort>, x: int, y: int)
    requires |bits| == Pixels && InGrid(x, y)
    ensures 0 <= Index(x, y) < Pixels
    ensures var k := Index(x, y);
            var q := DepthQuery(x, y, sdk.depthPixelToDepth(bits[k]) * 8);
            var v, r := sdk.depthToSkeleton(q), PositionsUpTo(sdk, bits, Pixels);
            r[3 * k] == Scaled(v.x, v.w) && r[3 * k + 1] == Scaled(v.y, v.w) && r[3 * k + 2] == Scaled(v.z, v.w)
    ensures var k := Index(x, y);
            var q := DepthQuery(x, y, sdk.depthPixelToDepth(bits[k]) * 8);
            var m := MapUpTo(sdk, bits, Pixels);
            m[2 * k] == sdk.colourFromDepth(q).0 && m[2 * k + 1] == sdk.colourFromDepth(q).1
  {
    var k := Index(x, y);
    RowMajorBijection(x, y, k);
    PositionsOfPixel(sdk, bits, Pixels, k);
    MapOfPixel(sdk, bits, Pixels, k);
  }

  // ---------------------------------------------------------------------
  // Colour pass

  /** A map entry the colour pass may read: a cell of the colour frame. */
  predicate InBounds(x: int, y: int) {
    0 <= x < Width && 0 <= y < Height
  }

  /** Offset of the first byte of colour pixel (x, y). */
  function PixelOffset(x: int, y: int): int {
    (x + Width * y) * BytesPerColourPixel
  }

  const Black: seq<Intensity> := [Intensity(0), Intensity(0), Intensity(0)]

  /** The three colour values written for one map entry (x, y). */
  function ColourSample(x: long, y: long, bits: seq<byte>): (r: seq<Intensity>)
    requires |bits| == FrameBytes
    ensures |r| == 3
    ensures !InBounds(x, y) ==> r[0] == r[1] == r[2] == Intensity(0)
    ensures InBounds(x, y) ==>
              var o := PixelOffset(x, y);
              && 0 <= o && o + BytesPerColourPixel <= |bits|
              && r[0] == Intensity(bits[o + 2]) && r[1] == Intensity(bits[o + 1]) && r[2] == Intensity(bits[o])
  {
    if !InBounds(x, y) then Black
    else
      var o := PixelOffset(x, y);
      [Intensity(bits[o + 2]), Intensity(bits[o + 1]), Intensity(bits[o])]
  }

  /** A map entry on the colour frame addresses four bytes inside it. */
  lemma ReadStaysInFrame(x: int, y: int)
    requires InBounds(x, y)
    ensures 0 <= PixelOffset(x, y) && PixelOffset(x, y) + BytesPerColourPixel <= FrameBytes
  {
  }

  /** The fourth byte of every colour pixel (alpha) never affects a sample. */
  lemma AlphaNeverRead(x: long, y: long, bits: seq<byte>, k: int, a: byte)
    requires |bits| == FrameBytes && 0 <= k < |bits| && k % BytesPerColourPixel == 3
    ensures ColourSample(x, y, bits[k := a]) == ColourSample(x, y, bits)
  {
    if InBounds(x, y) {
      var o := PixelOffset(x, y);
      assert o % BytesPerColourPixel == 0;
    }
  }

  /** Colours written by the first n steps of a colour pass over entries. */
  function ColoursUpTo(entries: seq<long>, bits: seq<byte>, n: nat): (r: seq<Intensity>)
    requires 2 * n <= |entries| && |bits| == FrameBytes
    ensures |r| == 3 * n
  {
    if n == 0 then []
    else ColoursUpTo(entries, bits, n - 1) + ColourSample(entries[2 * (n - 1)], entries[2 * (n - 1) + 1], bits)
  }

  /** Step k of a colour pass owns colours 3k, 3k + 1 and 3k + 2,
      computed from map entries 2k and 2k + 1. */
  lemma {:induction false} ColoursOfPixel(entries: seq<long>, bits: seq<byte>, n: nat, k: nat)
    requires 2 * n <= |entries| && |bits| == FrameBytes && k < n
    ensures var c := ColourSample(entries[2 * k], entries[2 * k + 1], bits);
            var r := ColoursUpTo(entries, bits, n);
            r[3 * k] == c[0] && r[3 * k + 1] == c[1] && r[3 * k + 2] == c[2]
  {
    var prefix := ColoursUpTo(entries, bits, n - 1);
    var last := ColourSample(entries[2 * (n - 1)], entries[2 * (n - 1) + 1], bits);
    assert ColoursUpTo(entries, bits, n) == prefix + last;
    if k < n - 1 {
      ColoursOfPixel(entries, bits, n - 1, k);
    }
  }

  /** After a full colour pass, pixel k holds black when its map entry is
      off the colour frame, and otherwise the bytes at +2, +1 and +0 of the
      4-byte pixel the entry addresses, which lie inside the frame. */
  lemma ColourPassPixel(entries: seq<long>, bits: seq<byte>, k: nat)
    requires |entries| == MapLength && |bits| == FrameBytes && k < Pixels
    ensures var x, y := entries[2 * k], entries[2 * k + 1];
            var r := ColoursUpTo(entries, bits, Pixels);
            && (!InBounds(x, y) ==>
                  r[3 * k] == r[3 * k + 1] == r[3 * k + 2] == Intensity(0))
            && (InBounds(x, y) ==>
                  var o := PixelOffset(x, y);
                  && 0 <= o && o + 3 < |bits|
                  && r[3 * k] == Intensity(bits[o + 2])
                  && r[3 * k + 1] == Intensity(bits[o + 1])
                  && r[3 * k + 2] == Intensity(bits[o]))
  {
    ColoursOfPixel(entries, bits, Pixels, k);
    if InBounds(entries[2 * k], entries[2 * k + 1]) {
      ReadStaysInFrame(entries[2 * k], entries[2 * k + 1]);
    }
  }

  /** After a depth pass and then a colour pass over its map, colour
      triple k and position triple k describe the same depth pixel: the
      colour is sampled where the colour lookup sends that pixel's query. */
  lemma PixelAlignment(sdk: Sdk, depthBits: seq<ushort>, rgbBits: seq<byte>, x: int, y: int)
    requires |depthBits| == Pixels && |rgbBits| == FrameBytes && InGrid(x, y)
    ensures 0 <= Index(x, y) < Pixels
    ensures var k := Index(x, y);
            var q := QueryAt(sdk, x, y, depthBits[k]);
            var c := ColourSample(sdk.colourFromDepth(q).0, sdk.colourFromDepth(q).1, rgbBits);
            var r := ColoursUpTo(MapUpTo(sdk, depthBits, Pixels), rgbBits, Pixels);
            r[3 * k] == c[0] && r[3 * k + 1] == c[1] && r[3 * k + 2] == c[2]
  {
    var k := Index(x, y);
    DepthPassCell(sdk, depthBits, x, y);
    ColoursOfPixel(MapUpTo(sdk, depthBits, Pixels), rgbBits, Pixels, k);
  }

  /** The sizes a full pass writes match the buffers bufferSetup allocates
      and the map's declared length. */
  lemma FullPassFillsBuffers(sdk: Sdk, depthBits: seq<ushort>, entries: seq<long>, rgbBits: seq<byte>)
    requires |depthBits| == Pixels && |entries| == MapLength && |rgbBits| == FrameBytes
    ensures |PositionsUpTo(sdk, depthBits, Pixels)| == BufferFloats
    ensures |MapUpTo(sdk, depthBits, Pixels)| == MapLength
    ensures |ColoursUpTo(entries, rgbBits, Pixels)| == BufferFloats
  {
  }

  // ---------------------------------------------------------------------
  // The colour bounds check as written

  /** The source's test: an entry is skipped only when x < 0, y < 0,
      x > width or y > height, so x == width and y == height pass. */
  predicate InBoundsAsWritten(x: int, y: int) {
    !(x < 0 || y < 0 || x > Width || y > Height)
  }

  /** The colour sample under the as-written test; None when the read it
      then performs leaves the colour frame. */
  function ColourSampleAsWritten(x: long, y: long, bits: seq<byte>): (r: Option<seq<Intensity>>)
    requires |bits| == FrameBytes
    ensures !InBoundsAsWritten(x, y) ==> r == Some(Black)
    ensures InBounds(x, y) ==> r == Some(ColourSample(x, y, bits))
    ensures r.None? ==> InBoundsAsWritten(x, y) && (x == Width || y == Height)
  {
    if !InBoundsAsWritten(x, y) then Some(Black)
    else
      var o := PixelOffset(x, y);
      if o + 2 < |bits| then Some([Intensity(bits[o + 2]), Intensity(bits[o + 1]), Intensity(bits[o])])
      else None
  }

  /** The entry (width, height) passes the as-written test, and the read it
      triggers starts past the last byte of the frame. */
  lemma EdgeEntryReadsPastFrame(bits: seq<byte>)
    requires |bits| == FrameBytes
    ensures InBoundsAsWritten(Width, Height) && !InBounds(Width, Height)
    ensures PixelOffset(Width, Height) + 2 >= |bits|
    ensures ColourSampleAsWritten(Width, Height, bits) == None
  {
  }

  /** The entry (width, 0) passes the as-written test and reads the first
      pixel of row 1 instead of a pixel of row 0. */
  lemma RightEdgeWrapsToNextRow(bits: seq<byte>)
    requires |bits| == FrameBytes
    ensures InBoundsAsWritten(Width, 0) && !InBounds(Width, 0)
    ensures ColourSampleAsWritten(Width, 0, bits) == Some(ColourSample(0, 1, bits))
  {
  }

  /** Off the two inclusive edges the as-written test and the corrected
      one agree, so the correction changes only x == width or y == height. */
  lemma AsWrittenAgreesOffTheEdges(x: long, y: long, bits: seq<byte>)
    requires |bits| == FrameBytes && x != Width && y != Height
    ensures ColourSampleAsWritten(x, y, bits) == Some(ColourSample(x, y, bits))
  {
  }
}
