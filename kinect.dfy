/** The boundary between the point-cloud code and its two devices: the
    depth camera's SDK and the graphics driver.  Nothing here computes;
    the SDK's conversions are arbitrary function values, a polled frame is
    a value, and every lock, unlock, release, map and unmap call is an
    event appended to a trace. */
module Kinect {

  /** Grid of the depth and colour streams, both opened at 640x480. */
  const Width: int := 640
  const Height: int := 480
  /** Width * Height, written out so that the solver sees a literal. */
  const Pixels: int := 307_200

  /** Bytes per colour pixel (B, G, R, alpha). */
  const BytesPerColourPixel: int := 4

  type ushort = x: int | 0 <= x < 0x1_0000
  type byte = x: int | 0 <= x < 0x100
  /** The SDK's 32-bit LONG, the element type of the depth-to-colour map. */
  type long = x: int | -0x8000_0000 <= x < 0x8000_0000

  /** The homogeneous camera-space point the skeleton transform returns. */
  datatype Vector4 = Vector4(x: real, y: real, z: real, w: real)

  /** What both SDK coordinate services are asked for one depth pixel:
      its grid position and its decoded depth shifted left by three. */
  datatype DepthQuery = DepthQuery(x: int, y: int, depth: int)

  /** The three SDK services the core calls, left uninterpreted:
      depth decoding, depth-to-skeleton back-projection at 640x480, and the
      depth-to-colour pixel lookup at 640x480 (its two LONG outputs). */
  datatype Sdk = Sdk(
    depthPixelToDepth: ushort -> ushort,
    depthToSkeleton: DepthQuery -> Vector4,
    colourFromDepth: DepthQuery -> (long, long))

  /** Result of a zero-timeout poll for the next frame of a stream.  An
      acquired frame exposes its locked rectangle: the row pitch and the
      pixels from the start of the buffer. */
  datatype Frame<P> = Unavailable | Acquired(pitch: int, bits: seq<P>)
  {
    /** A frame with data: acquired and with a non-zero pitch. */
    predicate HasData() {
      Acquired? && pitch != 0
    }
  }

  /** A depth frame with data holds one 16-bit sample per grid pixel. */
  predicate DepthFrameOk(f: Frame<ushort>) {
    f.HasData() ==> |f.bits| == Pixels
  }

  /** A colour frame with data holds four bytes per grid pixel. */
  predicate ColourFrameOk(f: Frame<byte>) {
    f.HasData() ==> |f.bits| == Pixels * BytesPerColourPixel
  }

  datatype Stream = DepthStream | RgbStream
  datatype GlBuffer = Vbo | Cbo

  /** Device calls whose pairing the core is responsible for. */
  datatype Event =
    | NextFrame(stream: Stream)
    | LockRect(stream: Stream)
    | UnlockRect(stream: Stream)
    | ReleaseFrame(stream: Stream)
    | MapBuffer(buffer: GlBuffer)
    | UnmapBuffer(buffer: GlBuffer)
  {
    predicate OnStream(s: Stream) {
      (NextFrame? || LockRect? || UnlockRect? || ReleaseFrame?) && stream == s
    }
  }

  /** The calls one frame read makes on stream s: the poll, and, only when
      a frame was obtained, lock, unlock and release, whatever the pitch. */
  function FrameEvents<P>(s: Stream, f: Frame<P>): (r: seq<Event>)
    ensures |r| == (if f.Acquired? then 4 else 1)
    ensures r[0] == NextFrame(s)
    ensures f.Acquired? ==> r[|r| - 1] == ReleaseFrame(s)
    ensures forall i :: 0 <= i < |r| ==> r[i].OnStream(s)
  {
    if f.Unavailable? then [NextFrame(s)]
    else [NextFrame(s), LockRect(s), UnlockRect(s), ReleaseFrame(s)]
  }

  /** The calls one buffer upload makes: map, the fill's frame calls when
      the mapping succeeded, then an unconditional unmap. */
  function UploadEvents<P>(b: GlBuffer, mapped: bool, s: Stream, f: Frame<P>): (r: seq<Event>)
    ensures |r| == 2 + (if mapped then |FrameEvents(s, f)| else 0)
    ensures r[0] == MapBuffer(b) && r[|r| - 1] == UnmapBuffer(b)
    ensures forall i :: 0 < i < |r| - 1 ==> r[i].OnStream(s)
  {
    [MapBuffer(b)] + (if mapped then FrameEvents(s, f) else []) + [UnmapBuffer(b)]
  }

  /** The calls one whole per-frame upload makes: positions, then colours. */
  function KinectEvents(vboMapped: bool, depth: Frame<ushort>, cboMapped: bool, rgb: Frame<byte>): (r: seq<Event>)
    ensures |r| == |UploadEvents(Vbo, vboMapped, DepthStream, depth)| + |UploadEvents(Cbo, cboMapped, RgbStream, rgb)|
    ensures r[0] == MapBuffer(Vbo) && r[|r| - 1] == UnmapBuffer(Cbo)
  {
    UploadEvents(Vbo, vboMapped, DepthStream, depth) + UploadEvents(Cbo, cboMapped, RgbStream, rgb)
  }

  /** Number of occurrences of e in t. */
  function Count(t: seq<Event>, e: Event): nat {
    multiset(t)[e]
  }

  /** A frame read locks, unlocks and releases exactly once when a frame
      was obtained (pitch zero or not) and never when the poll failed. */
  lemma FrameReleasedIffAcquired<P>(s: Stream, f: Frame<P>)
    ensures Count(FrameEvents(s, f), NextFrame(s)) == 1
    ensures Count(FrameEvents(s, f), LockRect(s)) == (if f.Acquired? then 1 else 0)
    ensures Count(FrameEvents(s, f), UnlockRect(s)) == (if f.Acquired? then 1 else 0)
    ensures Count(FrameEvents(s, f), ReleaseFrame(s)) == (if f.Acquired? then 1 else 0)
  {
  }

  /** Each buffer is mapped once and unmapped once per upload, whether or
      not the mapping succeeded; a frame is released only when its buffer
      mapped and the poll returned a frame. */
  lemma UploadPairing(vboMapped: bool, depth: Frame<ushort>, cboMapped: bool, rgb: Frame<byte>)
    ensures Count(KinectEvents(vboMapped, depth, cboMapped, rgb), MapBuffer(Vbo)) == 1
    ensures Count(KinectEvents(vboMapped, depth, cboMapped, rgb), UnmapBuffer(Vbo)) == 1
    ensures Count(KinectEvents(vboMapped, depth, cboMapped, rgb), MapBuffer(Cbo)) == 1
    ensures Count(KinectEvents(vboMapped, depth, cboMapped, rgb), UnmapBuffer(Cbo)) == 1
    ensures Count(KinectEvents(vboMapped, depth, cboMapped, rgb), ReleaseFrame(DepthStream))
            == (if vboMapped && depth.Acquired? then 1 else 0)
    ensures Count(KinectEvents(vboMapped, depth, cboMapped, rgb), ReleaseFrame(RgbStream))
            == (if cboMapped && rgb.Acquired? then 1 else 0)
  {
    var a := UploadEvents(Vbo, vboMapped, DepthStream, depth);
    var b := UploadEvents(Cbo, cboMapped, RgbStream, rgb);
    assert KinectEvents(vboMapped, depth, cboMapped, rgb) == a + b;
    assert multiset(a + b) == multiset(a) + multiset(b);
    UploadCounts(Vbo, vboMapped, DepthStream, depth);
    UploadCounts(Cbo, cboMapped, RgbStream, rgb);
    UploadCountsElsewhere(Vbo, vboMapped, DepthStream, depth, MapBuffer(Cbo));
    UploadCountsElsewhere(Vbo, vboMapped, DepthStream, depth, UnmapBuffer(Cbo));
    UploadCountsElsewhere(Vbo, vboMapped, DepthStream, depth, ReleaseFrame(RgbStream));
    UploadCountsElsewhere(Cbo, cboMapped, RgbStream, rgb, MapBuffer(Vbo));
    UploadCountsElsewhere(Cbo, cboMapped, RgbStream, rgb, UnmapBuffer(Vbo));
    UploadCountsElsewhere(Cbo, cboMapped, RgbStream, rgb, ReleaseFrame(DepthStream));
  }

  /** The multiset of calls one buffer upload makes. */
  lemma UploadMultiset<P>(b: GlBuffer, mapped: bool, s: Stream, f: Frame<P>)
    ensures multiset(UploadEvents(b, mapped, s, f))
            == multiset{MapBuffer(b), UnmapBuffer(b)}
               + (if !mapped then multiset{}
                  else if f.Unavailable? then multiset{NextFrame(s)}
                  else multiset{NextFrame(s), LockRect(s), UnlockRect(s), ReleaseFrame(s)})
  {
    var m := if mapped then FrameEvents(s, f) else [];
    assert UploadEvents(b, mapped, s, f) == [MapBuffer(b)] + m + [UnmapBuffer(b)];
  }

  /** One buffer upload maps and unmaps its own buffer once and releases
      its frame only when mapped and acquired. */
  lemma UploadCounts<P>(b: GlBuffer, mapped: bool, s: Stream, f: Frame<P>)
    ensures Count(UploadEvents(b, mapped, s, f), MapBuffer(b)) == 1
    ensures Count(UploadEvents(b, mapped, s, f), UnmapBuffer(b)) == 1
    ensures Count(UploadEvents(b, mapped, s, f), ReleaseFrame(s)) == (if mapped && f.Acquired? then 1 else 0)
  {
    UploadMultiset(b, mapped, s, f);
  }

  /** One buffer upload makes no call but the map and unmap of its own
      buffer and the calls on its own stream. */
  lemma UploadCountsElsewhere<P>(b: GlBuffer, mapped: bool, s: Stream, f: Frame<P>, e: Event)
    requires e != MapBuffer(b) && e != UnmapBuffer(b) && !e.OnStream(s)
    ensures Count(UploadEvents(b, mapped, s, f), e) == 0
  {
    assert e !in UploadEvents(b, mapped, s, f);
  }

  /** A frame read makes no call outside its own stream. */
  lemma FrameEventsOnlyOnStream<P>(s: Stream, f: Frame<P>, e: Event)
    requires !e.OnStream(s)
    ensures Count(FrameEvents(s, f), e) == 0
  {
  }

  /** Every depth-stream call of a per-frame upload comes before every
      colour-stream call: the depth pass runs first. */
  lemma DepthCallsPrecedeColourCalls(vboMapped: bool, depth: Frame<ushort>, cboMapped: bool, rgb: Frame<byte>, p: int, q: int)
    requires 0 <= p < |KinectEvents(vboMapped, depth, cboMapped, rgb)|
    requires 0 <= q < |KinectEvents(vboMapped, depth, cboMapped, rgb)|
    requires KinectEvents(vboMapped, depth, cboMapped, rgb)[p].OnStream(DepthStream)
    requires KinectEvents(vboMapped, depth, cboMapped, rgb)[q].OnStream(RgbStream)
    ensures p < q
  {
    var a := UploadEvents(Vbo, vboMapped, DepthStream, depth);
    var b := UploadEvents(Cbo, cboMapped, RgbStream, rgb);
    var t := a + b;
    if p >= |a| {
      assert t[p] == b[p - |a|];
      UploadStaysOnStream(Cbo, cboMapped, RgbStream, rgb, p - |a|);
      assert false;
    }
    if q < |a| {
      assert t[q] == a[q];
      UploadStaysOnStream(Vbo, vboMapped, DepthStream, depth, q);
      assert false;
    }
  }

  /** Every stream call of one buffer upload is on that upload's stream. */
  lemma UploadStaysOnStream<P>(b: GlBuffer, mapped: bool, s: Stream, f: Frame<P>, k: int)
    requires 0 <= k < |UploadEvents(b, mapped, s, f)|
    ensures forall s' :: UploadEvents(b, mapped, s, f)[k].OnStream(s') ==> s' == s
  {
  }
}
