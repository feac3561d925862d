# Kinect point-cloud buffer fill, modelled in Dafny

The program streams a Kinect sensor's 640x480 depth and colour images into
two OpenGL buffer objects once per frame:

- a position buffer, with three floats per depth pixel;
- a colour buffer, with three floats per depth pixel.

A process-wide depth-to-colour map links the two. It holds two `long`s per
depth pixel. The depth pass writes it. The colour pass then reads it to find,
for each depth pixel, which colour pixel to sample.

This project models that per-frame fill:

- `getKinectData` maps each buffer and fills it only when the mapping
  succeeded. It unmaps each buffer either way.
- `getDepthData` and `getRgbData` each poll one frame without waiting. With no
  frame they return at once. With a frame they lock it. When the pitch is
  non-zero they walk the grid row by row. They always unlock and release the
  frame.
- `storeDepthAtPoint` handles one depth pixel. It consumes one depth sample
  and writes three position values and two map entries.
- `storeRGBDataAtPoint` handles one map pair. It consumes two map entries and
  writes three colour values. An entry the bounds test rejects (x < 0, y < 0,
  x > width or y > height) gives black. Otherwise it reads the pixel's R, G
  and B bytes (the B, G, R bytes in reverse order). The test lets x == width
  and y == height through; see Findings for what those edge entries read.

Files:

- `kinect.dfy` (module `Kinect`) is the device boundary:
  - the grid constants;
  - the SDK's three conversion services, as function values in `Sdk`;
  - a polled frame (`Frame`), as `Unavailable` or `Acquired(pitch, bits)`;
  - the device calls, recorded as `Event`s in a trace;
  - the call sequence one frame read, one buffer upload and one whole
    per-frame upload make, with lemmas on how they pair and order.
- `point_cloud.dfy` (module `PointCloud`) holds the fill as values:
  - the buffer sizes;
  - the row-major grid order;
  - the samples one pixel produces (`PointSample`, `MapEntry`, `ColourSample`);
  - the contents a pass leaves after n pixels (`PositionsUpTo`, `MapUpTo`,
    `ColoursUpTo`), with lemmas on which cells each pixel owns;
  - the colour bounds check as the source writes it (see Findings).
- `scanner.dfy` (module `Upload`) is the imperative core:
  - class `Scanner` holds the map and the two buffer objects as arrays, plus
    the ghost call trace;
  - its methods follow the source's functions one to one, advancing the same
    cursors through the same nested loops, with one exception:
    `StoreRgbDataAtPoint` uses the corrected bounds test (see Findings);
  - each method is proved against the functions above.

Positions are kept as `Scaled(num, w)`, standing for the float `num / w`.
Colours are kept as `Intensity(raw)`, standing for the float `raw / 255.0f`.

## Model

| member | source | states |
|---|---|---|
| `Upload.Scanner.constructor` | Coursework2/Main.cpp:169-178 | Each buffer object holds dataSize / sizeof(float) floats. The map holds width*height*2 zeroed entries, as the static array starts. No device call has been made yet. |
| `Upload.Scanner.StoreDepthAtPoint` | Coursework2/Main.cpp:41-55 | Consumes one depth sample and advances the three cursors by 1, 3 and 2. Writes the skeleton point's x/w, y/w, z/w at the position cursor and the colour lookup's two outputs at the map cursor. Both services get the same (x, y, depth << 3) query. Every other cell is unchanged. |
| `Upload.Scanner.GetDepthData` | Coursework2/Main.cpp:57-76 | With no frame, nothing changes and only the poll is recorded. With a frame of pitch 0, the buffer and map are unchanged, yet lock, unlock and release each happen once. With data, the buffer and map end as the full-pass contents `PositionsUpTo` / `MapUpTo`. |
| `Upload.Scanner.DepthPass` | Coursework2/Main.cpp:65-73 | The j-outer, i-inner loop over a frame with data. It writes every position and map cell, with pixel k = j*width + i filling exactly the cells `PositionsOfPixel` and `MapOfPixel` assign it. |
| `Upload.Scanner.StoreRgbDataAtPoint` | Coursework2/Main.cpp:78-91 | Consumes two map entries and writes three colour values. The values are black when the entry is off the frame, otherwise the bytes at offsets +2, +1 and +0 of pixel (x + width*y)*4. The cursors advance by 2 and 3, and every other cell is unchanged. The bounds test is the corrected one (see Findings). |
| `Upload.Scanner.GetRgbData` | Coursework2/Main.cpp:93-112 | With no frame, nothing changes and only the poll is recorded. With a frame of pitch 0, the buffer is unchanged, yet lock, unlock and release each happen once. With data, the buffer ends as `ColoursUpTo` over the current map. The map is only read. |
| `Upload.Scanner.ColourPass` | Coursework2/Main.cpp:101-109 | The j-outer, i-inner loop over a frame with data. It consumes the whole map in order and writes every colour cell. |
| `Upload.Scanner.GetKinectData` | Coursework2/Main.cpp:114-129 | Each buffer is filled only when its mapping succeeded. The colour buffer is computed from the map as the depth pass left it: the new map when that pass wrote, the old map otherwise. The trace gains exactly `KinectEvents`: map, fill calls, unmap, first for the position buffer, then for the colour buffer. |
| `Kinect.FrameReleasedIffAcquired` | Coursework2/Main.cpp:62-75 | A frame read polls once. It locks, unlocks and releases exactly once when a frame was obtained, whatever its pitch, and never when the poll failed. |
| `Kinect.UploadPairing` | Coursework2/Main.cpp:117-128 | A per-frame upload maps and unmaps each buffer exactly once. It releases a depth or colour frame exactly when that buffer mapped and its poll returned a frame. |
| `Kinect.UploadCounts` | Coursework2/Main.cpp:117-122 | One buffer upload maps and unmaps its own buffer once. It releases its frame once exactly when the mapping succeeded and a frame came. |
| `Kinect.UploadCountsElsewhere` | Coursework2/Main.cpp:117-122 | One buffer upload calls nothing on the other buffer or the other stream. |
| `Kinect.DepthCallsPrecedeColourCalls` | Coursework2/Main.cpp:119-126 | In a per-frame upload, every depth-stream call comes before every colour-stream call. |
| `Kinect.FrameEventsOnlyOnStream` | Coursework2/Main.cpp:98-111 | A frame read makes no call on another stream and no buffer call. |
| `Kinect.FrameEvents` | Coursework2/Main.cpp:57-76 | A frame read first polls its stream. It makes one call when the poll fails and four when a frame came, the last of them the release. Every call is on the frame's own stream. The same shape holds for the colour read at lines 93-112. |
| `Kinect.UploadEvents` | Coursework2/Main.cpp:116-122 | A buffer upload starts by mapping its buffer and ends by unmapping it. In between it makes the frame read's calls exactly when the mapping succeeded, all on the upload's stream. |
| `Kinect.KinectEvents` | Coursework2/Main.cpp:115-129 | A per-frame upload starts by mapping the position buffer and ends by unmapping the colour buffer. Its calls are those of the two buffer uploads. |
| `PointCloud.QueryAt` | Coursework2/Main.cpp:44-53 | The query for a depth pixel carries the pixel's own grid cell. Its depth is the converted depth shifted left by 3: a multiple of 8 below 2^19. |
| `PointCloud.PointSample` | Coursework2/Main.cpp:46-49 | A depth pixel yields three position values, x, y and z, all divided by the same w of one skeleton point. |
| `PointCloud.MapEntry` | Coursework2/Main.cpp:51-54 | A depth pixel yields two map entries: the colour lookup's x and y outputs, in that order. |
| `PointCloud.ColourSample` | Coursework2/Main.cpp:84-89 | A map entry yields three colour values. They are black when the corrected bounds test rejects the entry. Otherwise they are the bytes at +2, +1 and +0 of the addressed pixel, and that pixel lies inside the frame. |
| `PointCloud.ColourSampleAsWritten` | Coursework2/Main.cpp:84-89 | The sample with the bounds test as written. A rejected entry gives black, and an entry inside the frame gives the corrected sample. The read leaves the frame only for an entry on the x == width or y == height edge. |
| `PointCloud.PixelAlignment` | Coursework2/Main.cpp:115-129 | After a depth pass and a colour pass over its map, colour triple k and position triple k describe the same depth pixel (x, y), k = y*width + x. The colours are the sample at the colour lookup's result for that pixel's query. |
| `PointCloud.SizesAgree` | Coursework2/Main.cpp:171 | The literal sizes equal the program's formulas. dataSize is width*height*3*4 bytes, which is 3 floats per pixel. The map is width*height*2 entries. A colour frame is 4 bytes per pixel. |
| `PointCloud.RowMajorBijection` | Coursework2/Main.cpp:68-72 | Step k = j*width + i of the nested loop is a bijection between the grid and [0, width*height), so every cell is visited exactly once. |
| `PointCloud.RowStarts` | Coursework2/Main.cpp:104-108 | Each row of the loop continues where the previous one ended, and the last row ends at width*height. |
| `PointCloud.PositionsUpTo` | Coursework2/Main.cpp:45-49 | After n depth steps, exactly 3n position values have been written. |
| `PointCloud.MapUpTo` | Coursework2/Main.cpp:51-54 | After n depth steps, exactly 2n map entries have been written. |
| `PointCloud.ColoursUpTo` | Coursework2/Main.cpp:85-89 | After n colour steps, exactly 3n colour values have been written. |
| `PointCloud.PositionsOfPixel` | Coursework2/Main.cpp:44-49 | Pixel k owns positions 3k, 3k+1 and 3k+2. They hold the skeleton point of sample k at its own grid cell. |
| `PointCloud.MapOfPixel` | Coursework2/Main.cpp:50-54 | Pixel k owns map entries 2k and 2k+1, the colour lookup's result for sample k at its own cell. |
| `PointCloud.DepthPassCell` | Coursework2/Main.cpp:44-54 | After a full depth pass, cell (x, y) is reflected at k = y*width + x. Its positions come from the skeleton transform, and its map pair from the colour lookup. Both are applied to the same query (x, y, depth << 3). |
| `PointCloud.ColoursOfPixel` | Coursework2/Main.cpp:81-89 | Colour step k owns colours 3k, 3k+1 and 3k+2, computed from map entries 2k and 2k+1. |
| `PointCloud.ColourPassPixel` | Coursework2/Main.cpp:84-89 | After a full colour pass, pixel k holds three zeros when its map entry is off the frame. Otherwise it holds the bytes at +2, +1 and +0 of the addressed pixel, and those bytes lie inside the frame. |
| `PointCloud.ReadStaysInFrame` | Coursework2/Main.cpp:88 | For 0 <= x < width and 0 <= y < height, the four bytes at (x + width*y)*4 lie inside a width*height*4-byte frame. |
| `PointCloud.AlphaNeverRead` | Coursework2/Main.cpp:88-89 | Changing the fourth (alpha) byte of any colour pixel changes no colour sample. |
| `PointCloud.FullPassFillsBuffers` | Coursework2/Main.cpp:14 | A full pass writes exactly dataSize / 4 position floats, dataSize / 4 colour floats and width*height*2 map entries: the buffers' and the map's capacities. |
| `PointCloud.EdgeEntryReadsPastFrame` | Coursework2/Main.cpp:84-89 | As written, the entry (width, height) passes the bounds test, and the read it triggers starts past the end of the frame. |
| `PointCloud.RightEdgeWrapsToNextRow` | Coursework2/Main.cpp:84-89 | As written, the entry (width, 0) passes the bounds test and samples the first pixel of row 1. |
| `PointCloud.AsWrittenAgreesOffTheEdges` | Coursework2/Main.cpp:84-89 | Off x == width and y == height, the as-written test and the corrected one give the same sample. |

## Left out

- Device set-up (`kinectSetup`), the camera rotation (`rotateCamera`), drawing (`drawKinectData`), `cameraSetup`, `main` and all of `Coursework2/GLSetup.cpp`. These are one-time initialisation, floating-point trigonometry and OpenGL plumbing.
- The SDK's conversion services are arbitrary total functions supplied to the constructor. Their internals and the status code the colour lookup returns are not modelled. The source ignores that status.
- The SDK's parameter type for the depth value is not part of this model. The shifted depth `depth << 3` is passed on at its full value, with no 16-bit reduction.
- Float arithmetic: `pos.x / pos.w` and `byte / 255.0f` are kept as the unevaluated pairs `Scaled` and `Intensity`.
- The frame grid dimensions come from `Main.h`, which is not part of this model. The 640x480 of the stream set-up is used for width and height.
- `Upload.Scanner.GetDepthData`: it requires a depth frame with data to carry exactly width*height samples. `Upload.Scanner.GetRgbData` likewise requires width*height*4 bytes. The source trusts the SDK for this; nothing in it checks the size.
- Whether `glMapBuffer` returns a pointer is a boolean argument of `GetKinectData`. The `glBindBuffer` calls and the GL buffer identifiers are not modelled.
- The buffers are plain arrays of the stored values. The reinterpretation of GL byte buffers as `float*` and of the map as `long*` is not modelled.

## Findings

| source | as written | input that shows it | evidently intended | confidence | as-written member | corrected member |
|---|---|---|---|---|---|---|
| Coursework2/Main.cpp:84 | the off-frame test is `x > width \|\| y > height`, so x == width and y == height count as on the frame | map entry (640, 480): the read starts at byte (640 + 640*480)*4, past the 1228800-byte frame; entry (640, 0) samples pixel (0, 1) | `x >= width \|\| y >= height`, i.e. 0 <= x < width and 0 <= y < height | high (not executed) | `PointCloud.EdgeEntryReadsPastFrame` | `PointCloud.ColourPassPixel` |
