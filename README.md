# Face swapper: verified model of the tracking and blending core

The face swapper reads camera frames and finds faces with a Haar cascade
detector. It tracks the faces from frame to frame and pastes each face onto the
next one with an alpha mask. This project models the integer and bookkeeping
logic of that program in Dafny and proves properties of the model:

- **Geometry** (`geometry.dfy`): `doubleRectSize`, the search region the tracker
  cuts around a face box. It doubles the box about its centre using truncating
  integer halves, then clips it to the frame. The module also has the minimum
  and maximum object sizes that are passed to the detector together with that
  region.
- **Overlay** (`overlay.dfy`): `overlayImage`. It blends a four-channel overlay
  into a destination image, in place, over the destination's flat byte buffer.
  The buffer is addressed as OpenCV lays it out: `offset + y * step + x * channels + c`.
  The offset lets the destination be a region-of-interest view into a larger
  frame, which is how `swapFaces` calls it.
- **Tracking** (`tracking.dfy`): one pass of `trackExistingFaces` as a function
  of the track list before the pass. This is the specification that the
  imperative loop is proved against.
- **Pairing** (`pairing.dfy`): the index logic of `swapFaces`. Track `(i + 1) % n`
  receives the face of track `i`.
- **Swapper** (`swapper.dfy`): the `FaceSwapper` object.
  - It keeps its state in fields: the parallel vectors `mFaces` and
    `mMisdetect`, the size of the grayscale frame, and the `static` frame
    counter of `update`.
  - It has the methods `DetectNewFaces`, `TrackExistingFaces` and `Update`.
  - The loop of `trackExistingFaces` assigns, increments and erases entries by
    index. It is proved to compute exactly `Tracking.TrackAll` of the tracks it
    started with. The three branches of its body are the method `TrackFace`.

The cascade detector is an input of the model. A full scan receives the boxes
the detector found in the whole frame as a parameter. A tracking pass receives
a function from a search region to the boxes found there, in coordinates local
to the region. A function is an accurate model here because the grayscale
frame the detector searches is refreshed only by a full scan. Between two
scans, every search therefore looks at the same image, and its answer depends
on the region alone.

Notes on the code, and on where it differs from its own comments:
- `swapFaces` (source/FaceSwapper.cpp:305-320) copies the face of track `i`
  out of a copy of the frame and blends it onto the region of track
  `(i + 1) % n` in the live frame. So track `(i + 1) % n` receives track `i`'s
  face.
- The comment above `detectNewFaces` (source/FaceSwapper.cpp:121-124) says that
  `mFaces` gains only the regions that do not overlap significantly with faces
  already tracked. The code (source/FaceSwapper.cpp:130-137) replaces the whole
  list with the detections and seeds every miss counter with 3. The model
  follows the code, so a full scan forgets every earlier track and its counter.
- The comment above `trackExistingFaces` (source/FaceSwapper.cpp:140-143) says
  the boxes follow the faces' movement. The grayscale frame the tracker searches
  is written only by a full scan (source/FaceSwapper.cpp:128-129), so between
  two scans every search (source/FaceSwapper.cpp:152-153) looks at the frame of
  the last scan, not at the newest camera frame.
- `update` rescans on every call whose counter is a multiple of 30
  (source/FaceSwapper.cpp:102). A track is erased when its search finds nothing
  while its counter is 3 (source/FaceSwapper.cpp:170-175). The eye detector call
  is commented out (source/FaceSwapper.cpp:157-159).

## Model

| member | source | states |
|---|---|---|
| Geometry.Half | source/FaceSwapper.cpp:17-18 | C++ `n / 2` truncates toward zero: for n ≥ 0 the result is the floor of n/2, for n < 0 it is the ceiling, and in both cases it lies between 0 and n |
| Geometry.Translate | source/FaceSwapper.cpp:161-163 | moving a detection from region-local to frame coordinates keeps its extent and shifts its origin by the region's origin; a detection inside the region lands within the region in the frame, so with a region inside the frame it lies inside the frame |
| Geometry.Doubled | source/FaceSwapper.cpp:13-18 | the unclipped box has twice the width and height and its origin moves by the truncated half extent; for a non-negative extent its centre, in half pixels, is the input's, exactly for an even extent and moved right or down by one half pixel for an odd one |
| Geometry.DoubleRectSize | source/FaceSwapper.cpp:9-38 | on each axis the result is the doubled span intersected with [0, frame size]: the left edge is max(doubled x, 0) and the right edge is min(doubled right edge, frame width), and the same vertically |
| Geometry.DoubleRectNoClipping | source/FaceSwapper.cpp:13-18 | when the doubled box fits in the frame it is returned as (x - w/2, y - h/2, 2w, 2h), unchanged by the clipping |
| Geometry.DoubleRectClipping | source/FaceSwapper.cpp:20-35 | for a box inside the frame the search region has a non-negative origin and extent, lies inside the frame, and covers the whole box |
| Geometry.SizeHints | source/FaceSwapper.cpp:153 | the minimum size is 40% of the region's width and height and the maximum is 60% of its width in both dimensions, each truncated; the maximum is square |
| Geometry.SizeHintsOrder | source/FaceSwapper.cpp:153 | because the maximum height comes from the region's width: a region at most 3/2 as high as wide gets a minimum height no larger than the maximum height, and a region more than 3/2 as high as wide (by a margin covering truncation) gets a minimum height above the maximum, so no window satisfies both hints; the minimum width never exceeds the maximum width |
| Geometry.SizeHintsTallRegion | source/FaceSwapper.cpp:153 | an illustration: a 40 x 100 region gets a minimum of 16 x 40 and a maximum of 24 x 24 |
| Overlay.Index | source/FaceSwapper.cpp:56-62 | the buffer position `offset + y * step + x * channels + c` of a pixel byte, with the offset of a region view; in an image whose rows fit their step an in-range pixel byte lies within its own row's span, so two rows never share a byte |
| Overlay.PixelOf | source/FaceSwapper.cpp:60-62 | the inverse of the byte addressing: a buffer position that belongs to a pixel yields a row, column and channel in range whose address is that position |
| Overlay.PixelOfIndex | source/FaceSwapper.cpp:60-62 | every in-range (row, column, channel) of a well-formed image is recovered from its address, so distinct pixel bytes never share a buffer position |
| Overlay.IndexInBounds | source/FaceSwapper.cpp:56-61 | every pixel byte of a well-formed image lies inside its buffer, so every read and write of the loop is in bounds |
| Overlay.Blend | source/FaceSwapper.cpp:62 | the blended byte `src * (1 - a) + over * a` lies between the two bytes; it is the source byte at opacity 0 and the overlay byte at opacity 255 |
| Overlay.Opacity | source/FaceSwapper.cpp:56 | the opacity at an overlay pixel is the byte of its last channel, read inside the overlay's buffer |
| Overlay.OverlayByte | source/FaceSwapper.cpp:60 | the overlay's byte for channel c at an overlay pixel, read inside the overlay's buffer |
| Overlay.BlendedAt | source/FaceSwapper.cpp:42-63 | the byte a buffer position holds after the overlay: unchanged when it is not a destination pixel byte, when the overlay does not cover its pixel or when the opacity there is 0; the overlay's byte of the same channel at opacity 255 |
| Overlay.Overlaid | source/FaceSwapper.cpp:42-65 | the whole destination buffer after the overlay: as long as the old buffer, with every byte outside the destination's pixels unchanged |
| Overlay.OverlayImage | source/FaceSwapper.cpp:40-66 | the loops with their starts at max(location, 0), their breaks and the opacity guard leave the buffer equal to `Overlaid` of the old buffer: every byte is blended according to its own pixel and no other byte changes |
| Overlay.OverlayOnlyWritesPixels | source/FaceSwapper.cpp:58-62 | a buffer byte that is not a channel of a destination pixel, such as row padding or the frame outside a region view, keeps its value |
| Overlay.OverlayPixel | source/FaceSwapper.cpp:42-63 | a destination byte is blended with the overlay byte of the same channel where the overlay covers its pixel with a positive opacity, and otherwise keeps its value |
| Overlay.OverlayUntouched | source/FaceSwapper.cpp:42-58 | a destination byte is unchanged when its row or column lies before max(location, 0), when its overlay row or column reaches the overlay's rows or columns, or when the opacity there is 0 |
| Overlay.OverlayFullOpacity | source/FaceSwapper.cpp:56-62 | where the overlay's opacity is 255, each destination channel becomes the overlay's byte for that channel |
| Overlay.OverlayTransparent | source/FaceSwapper.cpp:56-58 | an overlay whose opacity is 0 everywhere leaves the whole buffer as it was |
| Overlay.OverlayOpaqueCopy | source/FaceSwapper.cpp:42-62 | an opaque overlay of the destination's size placed at the origin, as `swapFaces` places it, replaces every colour byte of the destination with its own |
| Tracking.Fresh | source/FaceSwapper.cpp:132-137 | a full scan gives a track list as long as the detections, with each box as detected; every counter is 3, so all counters are in range and every new track would be erased by its first miss |
| Tracking.MissStep | source/FaceSwapper.cpp:170-179 | a failed search erases the track exactly when its counter is 3, and otherwise keeps the box with the counter one higher, still within 0..3 |
| Tracking.Step | source/FaceSwapper.cpp:150-179 | one iteration on one track: the track is erased exactly when its search finds nothing while its counter is 3; a hit yields counter 0; a counter within 0..3 stays within 0..3 |
| Tracking.TrackAll | source/FaceSwapper.cpp:147-180 | the whole pass, every track in order with the erased ones dropped; if every counter is within 0..3 before it, every counter is within 0..3 after it (proved through the recursive call) |
| Tracking.TrackAllAppend | source/FaceSwapper.cpp:147-180 | the pass treats each track independently: a pass over two concatenated lists is the concatenation of the two passes |
| Tracking.TrackAllAt | source/FaceSwapper.cpp:147-180 | track i's outcome lands at the position given by the number of survivors before it, and the survivors after it come later |
| Tracking.TrackHit | source/FaceSwapper.cpp:155-166 | when the search finds a face, the track's box becomes the first detection shifted by the region's origin and its counter becomes 0 |
| Tracking.TrackMiss | source/FaceSwapper.cpp:170-179 | when the search finds nothing, a track whose counter is 3 is erased, and any other track keeps its box with its counter incremented |
| Tracking.TrackErased | source/FaceSwapper.cpp:170-175 | a track is erased if and only if its search finds nothing while its counter is 3 |
| Tracking.TrackKeepsOrder | source/FaceSwapper.cpp:170-175 | surviving tracks keep their relative order |
| Tracking.TrackInsideFrame | source/FaceSwapper.cpp:152-163 | if every box lies inside the frame and the detector answers inside the region it searched, every box still lies inside the frame after the pass, and so does every search region of the next pass |
| Tracking.EvictionTiming | source/FaceSwapper.cpp:170-179 | a track with counter m survives exactly 3 - m consecutive failed searches and is erased at the next one; a freshly detected face therefore goes at its first miss |
| Tracking.Misses | source/FaceSwapper.cpp:170-179 | k consecutive failed searches leave the box in place and add k to the counter while the track survives; a track whose counter is 3 does not survive even one |
| Tracking.StepOnMiss | source/FaceSwapper.cpp:170-179 | a failed search makes a pass over the track exactly one step of the repeated-miss sequence |
| Pairing.Receiver | source/FaceSwapper.cpp:306 | the track receiving track i's face is again a track index |
| Pairing.Donor | source/FaceSwapper.cpp:305-306 | the track whose face track j receives is again a track index |
| Pairing.ReceiverValue | source/FaceSwapper.cpp:306 | `(i + 1) % n` is i + 1, except for the last track, which wraps to 0 |
| Pairing.DonorValue | source/FaceSwapper.cpp:306 | the donor of track j is j - 1, except for track 0, whose donor is the last track |
| Pairing.ReceiverBijective | source/FaceSwapper.cpp:303-306 | `i ↦ (i + 1) % n` is a bijection on 0..n-1 with `Donor` its inverse, so every track gives one face and receives one |
| Pairing.ReceiverNoFixedPoint | source/FaceSwapper.cpp:306 | with two or more tracks no track receives its own face |
| Pairing.ReceiverSingle | source/FaceSwapper.cpp:306 | a single track receives its own face |
| Pairing.SwapPairs | source/FaceSwapper.cpp:303-306 | the loop forms one (donor, receiver) pair per track, and none for no tracks |
| Pairing.SwapPairsRotate | source/FaceSwapper.cpp:303-306 | the donors are the tracks in order and the receivers are the tracks rotated left by one, a permutation of the tracks |
| Pairing.SwapPairsSmall | source/FaceSwapper.cpp:303-306 | one track is paired with itself; no track forms no pair |
| Swapper.Zip | source/FaceSwapper.hpp:24-25 | the parallel vectors read as one track list of the same length |
| Swapper.ZipSet | source/FaceSwapper.cpp:161-164 | assigning entry i of both vectors assigns track i |
| Swapper.ZipErase | source/FaceSwapper.cpp:172-173 | erasing entry i of both vectors erases track i and shifts the later ones down |
| Swapper.ProcessedNext | source/FaceSwapper.cpp:147-152 | inside the loop, index i names the first unprocessed track of the original list |
| Swapper.PassHit | source/FaceSwapper.cpp:155-166 | on a hit, assigning the moved box and a zero counter and advancing the index processes one more original track |
| Swapper.PassErase | source/FaceSwapper.cpp:170-175 | on a miss at counter 3, erasing the entry while the index stays put (`i--` then `i++`) processes one more original track |
| Swapper.PassMiss | source/FaceSwapper.cpp:176-179 | on any other miss, incrementing the counter and advancing the index processes one more original track |
| Swapper.PassDone | source/FaceSwapper.cpp:147 | when the index reaches the end of the vectors, every original track has been processed and the vectors hold the whole pass |
| Swapper.CountersSet | source/FaceSwapper.cpp:164-178 | writing a counter within 0..3 keeps every counter within 0..3 |
| Swapper.CountersErase | source/FaceSwapper.cpp:173 | erasing a counter keeps every counter within 0..3 |
| Swapper.FaceSwapper.Tracks | source/FaceSwapper.hpp:24-25 | track i is face i with counter i |
| Swapper.FaceSwapper.constructor | source/FaceSwapper.cpp:100 | the starting state: no tracks and no counters (the empty vectors of source/FaceSwapper.hpp:24-25), frame counter 0 as `static int frameId = 0` gives, and the invariant holds |
| Swapper.FaceSwapper.DetectNewFaces | source/FaceSwapper.cpp:125-138 | the face list becomes the detections and the counter list becomes equally long with every entry 3; the tracks are `Fresh(detections)` and the grayscale frame is the new one |
| Swapper.FaceSwapper.TrackFace | source/FaceSwapper.cpp:149-179 | one iteration: a hit assigns the moved box and counter 0 and advances, a miss at 3 erases both entries and stays, any other miss increments the counter and advances; the vectors stay parallel with counters in 0..3 |
| Swapper.FaceSwapper.TrackExistingFaces | source/FaceSwapper.cpp:144-183 | the vectors afterwards hold exactly one tracking pass (`TrackAll`) over the tracks before, and stay parallel with every counter in 0..3 |
| Swapper.FaceSwapper.Update | source/FaceSwapper.cpp:98-111 | a full scan runs exactly when the counter is a multiple of 30, the counter advances by one per call, a tracking pass follows, and the swap pairs are formed over the tracked faces |

## Left out

- `init`, `running`, `processInput` and `draw` (source/FaceSwapper.cpp:68-119) and the loop in `main.cpp` are not modelled. They are camera, window, keyboard and file I/O.
- The cascade detector's `detectMultiScale`, and the grayscale conversion and histogram equalisation before a full scan, are opaque library calls. A full scan takes the detections as a parameter, and a tracking pass takes a function from a search region to detections.
- Geometry.SizeHints: the hints are computed and their properties proved, but the detector function of a tracking pass does not receive them, because the detector itself is not modelled.
- `computeMean`, `changeMean`, `transferColor` and `clamp` (source/FaceSwapper.cpp:185-293) are not modelled. They are floating-point colour statistics with `pow`, `sqrt` and Lab conversion.
- The image work in `swapFaces` is not modelled: cloning, resizing, colour conversion, channel mixing and region views (source/FaceSwapper.cpp:300-320). Only its pairing of tracks is, and `overlayImage` on its own.
- Overlay.Blend: computes `(src * (255 - a) + over * a) / 255` exactly, truncated to a byte. The source computes this in `double` with the opacity `a / 255.0`. Floating-point rounding can make the source's byte one less at exact integer boundaries.
- Overlay.OverlayImage: takes the overlay as a value separate from the destination buffer, so aliasing between the two images is not modelled. `swapFaces` always passes two distinct images.
- Overlay.OverlayImage: the loop indices are unbounded integers where the source uses 32-bit `int`. Signed overflow would be undefined behaviour in C++; it cannot occur for images that fit in memory, and the model does not capture it.
- Geometry.DoubleRectSize: `inputRect.width * 2` and the other box arithmetic (source/FaceSwapper.cpp:13-35) are 32-bit `int` in the source and unbounded here. Signed overflow, undefined behaviour in C++, is not captured; it cannot occur for boxes of camera-frame size.
- Geometry.SizeHints: `roi.width * 6` and `roi.height * 4` (source/FaceSwapper.cpp:153) are 32-bit `int` in the source and unbounded here. Signed overflow, undefined behaviour in C++, is not captured; it cannot occur for regions of camera-frame size.
- Swapper.FaceSwapper.Update: `frameId` is an unbounded natural number. The source's `static int` overflows after 2^31 - 1 calls, which is undefined behaviour in C++; the model does not capture it.
- Swapper.FaceSwapper.TrackFace: the erase branch keeps the index in place. The source reaches the same effect by decrementing the unsigned index, which wraps at 0, and then incrementing it in the loop header.
- The `cout` trace of the number of faces (source/FaceSwapper.cpp:182) is output only.
- The eye detector is not modelled: its load in `init` is I/O and its call at source/FaceSwapper.cpp:157-159 is commented out.
