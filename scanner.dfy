/** The per-frame upload of the point cloud: the process-wide state the
    source keeps in globals (the depth-to-colour map and the two GPU buffer
    objects) as one object, and the routines that fill it through moving
    cursors, one depth or colour frame at a time. */
module Upload {
  import opened Kinect
  import opened PointCloud

  class Scanner {
    /** The camera SDK's conversion services. */
    const sdk: Sdk
    /** The global depth-to-colour map: column and row per depth pixel. */
    const depthToRgbMap: array<long>
    /** Contents of the position buffer object (vboId). */
    const vbo: array<Scaled>
    /** Contents of the colour buffer object (cboId). */
    const cbo: array<Intensity>
    /** The device calls made so far. */
    ghost var trace: seq<Event>

    ghost predicate Valid() {
      && depthToRgbMap.Length == MapLength
      && vbo.Length == BufferFloats
      && cbo.Length == BufferFloats
    }

    /** Start-up state: two buffers of dataSize bytes, as bufferSetup
        allocates them, and the statically zeroed map. */
    constructor (sdk: Sdk)
      ensures Valid() && this.sdk == sdk
      ensures fresh(depthToRgbMap) && fresh(vbo) && fresh(cbo)
      ensures vbo.Length == DataSize / FloatSize && cbo.Length == DataSize / FloatSize
      ensures forall k :: 0 <= k < depthToRgbMap.Length ==> depthToRgbMap[k] == 0
      ensures trace == []
    {
      this.sdk := sdk;
      depthToRgbMap := new long[MapLength](_ => 0);
      vbo := new Scaled[BufferFloats];
      cbo := new Intensity[BufferFloats];
      trace := [];
    }

    /** Consumes the depth sample at cursor curr for grid cell (x, y): three
        position values at fdest and two map entries at depth2rgb, both from
        the same query, each cursor advanced past what it wrote. */
    method StoreDepthAtPoint(bits: seq<ushort>, curr: nat, x: int, y: int,
                             dest: array<Scaled>, fdest: nat, depth2rgb: nat)
      returns (curr': nat, fdest': nat, depth2rgb': nat)
      requires Valid()
      requires curr < |bits| && fdest + 3 <= dest.Length && depth2rgb + 2 <= depthToRgbMap.Length
      modifies dest, depthToRgbMap
      ensures curr' == curr + 1 && fdest' == fdest + 3 && depth2rgb' == depth2rgb + 2
      ensures var p := PointSample(sdk, QueryAt(sdk, x, y, bits[curr]));
              dest[fdest] == p[0] && dest[fdest + 1] == p[1] && dest[fdest + 2] == p[2]
      ensures forall k :: 0 <= k < dest.Length && !(fdest <= k < fdest') ==> dest[k] == old(dest[k])
      ensures var e := MapEntry(sdk, QueryAt(sdk, x, y, bits[curr]));
              depthToRgbMap[depth2rgb] == e[0] && depthToRgbMap[depth2rgb + 1] == e[1]
      ensures forall k :: 0 <= k < depthToRgbMap.Length && !(depth2rgb <= k < depth2rgb') ==> depthToRgbMap[k] == old(depthToRgbMap[k])
    {
      var depth: int := sdk.depthPixelToDepth(bits[curr]);
      curr' := curr + 1;
      var pos := sdk.depthToSkeleton(DepthQuery(x, y, depth * 8));
      dest[fdest] := Scaled(pos.x, pos.w);
      dest[fdest + 1] := Scaled(pos.y, pos.w);
      dest[fdest + 2] := Scaled(pos.z, pos.w);
      fdest' := fdest + 3;
      var (cx, cy) := sdk.colourFromDepth(DepthQuery(x, y, depth * 8));
      depthToRgbMap[depth2rgb] := cx;
      depthToRgbMap[depth2rgb + 1] := cy;
      depth2rgb' := depth2rgb + 2;
    }

    /** Reads one depth frame into dest and the map.  Without a frame
        nothing is written and no lock, unlock or release happens; with a
        frame of pitch zero nothing is written but the frame is still
        unlocked and released. */
    method GetDepthData(dest: array<Scaled>, frame: Frame<ushort>)
      requires Valid() && dest.Length == BufferFloats && DepthFrameOk(frame)
      modifies dest, depthToRgbMap, this`trace
      ensures Valid()
      ensures dest[..] == if frame.HasData() then PositionsUpTo(sdk, frame.bits, Pixels) else old(dest[..])
      ensures depthToRgbMap[..] == if frame.HasData() then MapUpTo(sdk, frame.bits, Pixels) else old(depthToRgbMap[..])
      ensures trace == old(trace) + FrameEvents(DepthStream, frame)
    {
      trace := trace + [NextFrame(DepthStream)];
      if frame.Unavailable? {
        return;
      }
      trace := trace + [LockRect(DepthStream)];
      if frame.pitch != 0 {
        DepthPass(dest, frame.bits);
      }
      trace := trace + [UnlockRect(DepthStream), ReleaseFrame(DepthStream)];
      assert trace == old(trace) + [NextFrame(DepthStream)] + [LockRect(DepthStream)] + [UnlockRect(DepthStream), ReleaseFrame(DepthStream)];
    }

    /** The nested loop of a depth read over a frame with data: pixel by
        pixel in row-major order, one position triple and one map pair each. */
    method DepthPass(dest: array<Scaled>, bits: seq<ushort>)
      requires Valid() && dest.Length == BufferFloats && |bits| == Pixels
      modifies dest, depthToRgbMap
      ensures dest[..] == PositionsUpTo(sdk, bits, Pixels)
      ensures depthToRgbMap[..] == MapUpTo(sdk, bits, Pixels)
    {
      ghost var target, targetMap := PositionsUpTo(sdk, bits, Pixels), MapUpTo(sdk, bits, Pixels);
      var curr, fdest, depth2rgb := 0, 0, 0;
      for y := 0 to Height
        modifies dest, depthToRgbMap
        invariant curr == Index(0, y) && fdest == 3 * curr && depth2rgb == 2 * curr
        invariant forall k :: 0 <= k < fdest ==> dest[k] == target[k]
        invariant forall k :: 0 <= k < depth2rgb ==> depthToRgbMap[k] == targetMap[k]
      {
        RowStarts(y);
        for x := 0 to Width
          modifies dest, depthToRgbMap
          invariant curr == Index(0, y) + x && fdest == 3 * curr && depth2rgb == 2 * curr
          invariant forall k :: 0 <= k < fdest ==> dest[k] == target[k]
          invariant forall k :: 0 <= k < depth2rgb ==> depthToRgbMap[k] == targetMap[k]
        {
          RowMajorBijection(x, y, curr);
          PositionsOfPixel(sdk, bits, Pixels, curr);
          MapOfPixel(sdk, bits, Pixels, curr);
          curr, fdest, depth2rgb := StoreDepthAtPoint(bits, curr, x, y, dest, fdest, depth2rgb);
        }
      }
      RowStarts(Height);
      assert dest[..] == target && depthToRgbMap[..] == targetMap;
    }

    /** Consumes the map entry at cursor m and writes three colour values at
        fdest: black for an entry off the colour frame, otherwise the bytes
        at +2, +1 and +0 of the addressed 4-byte pixel. */
    method StoreRgbDataAtPoint(m: nat, dest: array<Intensity>, fdest: nat, bits: seq<byte>)
      returns (m': nat, fdest': nat)
      requires Valid()
      requires m + 2 <= depthToRgbMap.Length && fdest + 3 <= dest.Length && |bits| == FrameBytes
      modifies dest
      ensures m' == m + 2 && fdest' == fdest + 3
      ensures var c := ColourSample(depthToRgbMap[m], depthToRgbMap[m + 1], bits);
              dest[fdest] == c[0] && dest[fdest + 1] == c[1] && dest[fdest + 2] == c[2]
      ensures forall k :: 0 <= k < dest.Length && !(fdest <= k < fdest') ==> dest[k] == old(dest[k])
    {
      var x := depthToRgbMap[m];
      var y := depthToRgbMap[m + 1];
      m' := m + 2;
      ghost var sample := ColourSample(x, y, bits);
      if !InBounds(x, y) {
        for n := 0 to 3
          modifies dest
          invariant forall i :: 0 <= i < n ==> dest[fdest + i] == sample[i]
          invariant forall k :: 0 <= k < dest.Length && !(fdest <= k < fdest + n) ==> dest[k] == old(dest[k])
        {
          dest[fdest + n] := Intensity(0);
        }
      } else {
        ReadStaysInFrame(x, y);
        var curr := PixelOffset(x, y);
        for n := 0 to 3
          modifies dest
          invariant forall i :: 0 <= i < n ==> dest[fdest + i] == sample[i]
          invariant forall k :: 0 <= k < dest.Length && !(fdest <= k < fdest + n) ==> dest[k] == old(dest[k])
        {
          dest[fdest + n] := Intensity(bits[curr + 2 - n]);
        }
      }
      fdest' := fdest + 3;
    }

    /** Reads one colour frame into dest through the current map.  Without
        a frame nothing is written and no lock, unlock or release happens;
        with a frame of pitch zero nothing is written but the frame is still
        unlocked and released.  The map itself is only read. */
    method GetRgbData(dest: array<Intensity>, frame: Frame<byte>)
      requires Valid() && dest.Length == BufferFloats && ColourFrameOk(frame)
      modifies dest, this`trace
      ensures Valid()
      ensures frame.HasData() ==> dest[..] == ColoursUpTo(depthToRgbMap[..], frame.bits, Pixels)
      ensures !frame.HasData() ==> dest[..] == old(dest[..])
      ensures trace == old(trace) + FrameEvents(RgbStream, frame)
    {
      trace := trace + [NextFrame(RgbStream)];
      if frame.Unavailable? {
        return;
      }
      trace := trace + [LockRect(RgbStream)];
      if frame.pitch != 0 {
        ColourPass(dest, frame.bits);
      }
      trace := trace + [UnlockRect(RgbStream), ReleaseFrame(RgbStream)];
      assert trace == old(trace) + [NextFrame(RgbStream)] + [LockRect(RgbStream)] + [UnlockRect(RgbStream), ReleaseFrame(RgbStream)];
    }

    /** The nested loop of a colour read over a frame with data: one colour
        triple per map pair, in map order. */
    method ColourPass(dest: array<Intensity>, bits: seq<byte>)
      requires Valid() && dest.Length == BufferFloats && |bits| == FrameBytes
      modifies dest
      ensures dest[..] == ColoursUpTo(depthToRgbMap[..], bits, Pixels)
    {
      ghost var entries := depthToRgbMap[..];
      ghost var target := ColoursUpTo(entries, bits, Pixels);
      ghost var p := 0;
      var m, fdest := 0, 0;
      for y := 0 to Height
        modifies dest
        invariant p == Index(0, y) && m == 2 * p && fdest == 3 * p
        invariant forall k :: 0 <= k < fdest ==> dest[k] == target[k]
      {
        RowStarts(y);
        for x := 0 to Width
          modifies dest
          invariant p == Index(0, y) + x && m == 2 * p && fdest == 3 * p
          invariant forall k :: 0 <= k < fdest ==> dest[k] == target[k]
        {
          ColoursOfPixel(entries, bits, Pixels, p);
          assert depthToRgbMap[m] == entries[2 * p] && depthToRgbMap[m + 1] == entries[2 * p + 1];
          m, fdest := StoreRgbDataAtPoint(m, dest, fdest, bits);
          p := p + 1;
        }
      }
      RowStarts(Height);
      assert dest[..] == target;
    }

    /** One per-frame upload: fill the position buffer, then the colour
        buffer, each only when mapping it succeeded, unmapping each either
        way.  The colour pass reads the map left by this call's depth pass,
        or the previous map when that pass wrote nothing. */
    method GetKinectData(vboMapped: bool, depthFrame: Frame<ushort>, cboMapped: bool, rgbFrame: Frame<byte>)
      requires Valid() && DepthFrameOk(depthFrame) && ColourFrameOk(rgbFrame)
      modifies vbo, cbo, depthToRgbMap, this`trace
      ensures Valid()
      ensures vboMapped && depthFrame.HasData() ==> vbo[..] == PositionsUpTo(sdk, depthFrame.bits, Pixels)
      ensures vboMapped && depthFrame.HasData() ==> depthToRgbMap[..] == MapUpTo(sdk, depthFrame.bits, Pixels)
      ensures !(vboMapped && depthFrame.HasData()) ==> vbo[..] == old(vbo[..]) && depthToRgbMap[..] == old(depthToRgbMap[..])
      ensures cboMapped && rgbFrame.HasData() ==> cbo[..] == ColoursUpTo(depthToRgbMap[..], rgbFrame.bits, Pixels)
      ensures !(cboMapped && rgbFrame.HasData()) ==> cbo[..] == old(cbo[..])
      ensures trace == old(trace) + KinectEvents(vboMapped, depthFrame, cboMapped, rgbFrame)
    {
      ghost var before := trace;
      trace := trace + [MapBuffer(Vbo)];
      ghost var mapped := trace;
      if vboMapped {
        GetDepthData(vbo, depthFrame);
      }
      UploadTrace(before, mapped, trace, Vbo, vboMapped, DepthStream, depthFrame);
      trace := trace + [UnmapBuffer(Vbo)];
      ghost var between := trace;
      trace := trace + [MapBuffer(Cbo)];
      mapped := trace;
      if cboMapped {
        GetRgbData(cbo, rgbFrame);
      }
      UploadTrace(between, mapped, trace, Cbo, cboMapped, RgbStream, rgbFrame);
      trace := trace + [UnmapBuffer(Cbo)];
      AppendAssoc(before, UploadEvents(Vbo, vboMapped, DepthStream, depthFrame), UploadEvents(Cbo, cboMapped, RgbStream, rgbFrame));
    }
  }

  /** The trace of one buffer upload, from the map call, through the fill
      when the mapping succeeded, to the unmap call. */
  lemma UploadTrace<P>(start: seq<Event>, mapped: seq<Event>, filled: seq<Event>,
                       b: GlBuffer, ok: bool, s: Stream, f: Frame<P>)
    requires mapped == start + [MapBuffer(b)]
    requires ok ==> filled == mapped + FrameEvents(s, f)
    requires !ok ==> filled == mapped
    ensures filled + [UnmapBuffer(b)] == start + UploadEvents(b, ok, s, f)
  {
  }

  /** Concatenation is associative. */
  lemma AppendAssoc<T>(a: seq<T>, b: seq<T>, c: seq<T>)
    ensures a + b + c == a + (b + c)
  {
  }
}
