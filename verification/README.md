# Particle image: visibility mask and touch trail

A Dafny model of the two pieces of `js/script.js` that hold state or logic of
their own, and of the small pointer mapping that connects them. Everything else
in that file is three.js, canvas-2D or tween plumbing.

- **VisibilityMask** (`visibility_mask.dfy`). `WebGL.discard` counts the pixels
  whose first RGBA byte is above the threshold 34. The loop in
  `WebGL.createMesh` then allocates a `Uint16Array` of pixel indices and a
  `Float32Array` of offsets with that count. It fills slot `j` with the
  `j`-th such pixel: the index goes in mod 2^16, the offset is `(i % width,
  floor(i / width), 0)`. `CreateMesh` writes into sequences allocated from
  the count. Verifying its indexed updates shows every write lands inside
  them, and its contract states that slot `j` describes exactly the `j`-th
  visible pixel. `VisibleIndices` is the
  reference list of visible pixels, and the lemmas pin it down: membership
  both ways, strict ascent, cardinality, and monotonicity in the threshold.
- **TouchTexture** (`touch_texture.dfy`). The trail is a sequence of
  `TouchPoint(x, y, age, force)`.
  - `AddTouch` appends a point of age 0. Its force is
    `min(dd * 10000, 1)` against the previous point, or 0 on an empty trail.
  - `Update` is the aging pass of `update()`. `Sweep` reproduces
    `forEach` + `splice(i, 1)` index by index: after a removal the index still
    advances, so the point that slid into the freed slot is not visited that
    frame and keeps its age.
  - `AgeFrom` states the same pass front to back with a "skip" flag.
    The contract of `Update` states that the two are equal. The other properties are proved
    from that: validity, order of survivors, no-eviction aging and the
    lifetime bound.
- **PointerMapper** (`pointer_mapper.dfy`). `ToNdc` is the client-position to
  device-coordinate mapping of `onMouseMove`; its contract states that
  `FromNdc` undoes it. `OnMouseMove` forwards a ray-cast
  hit to `AddTouch` and ignores a miss.

Two facts about the code are easy to misread:

- The visibility test reads `originalColors[i * 4]`, byte 0 of each RGBA
  quad (red in `getImageData` order), not the alpha byte. The model tests
  byte 0.
- A quiet trail does not always drain after `maxAge + 1` frames. Because of
  the skip after `splice`, two points added in the same frame leave one point
  alive after `maxAge + 1` frames (`TwinOutlivesMaxAge`). The bound that does
  hold is `maxAge + |trail|` frames (`DrainsWithin`).

## Model

| member | source | states |
|---|---|---|
| TouchTexture.SquaredDistance | js/script.js:358-360 | the squared distance is non-negative and is zero exactly when the new position equals the last point's |
| TouchTexture.ForceFor | js/script.js:354-362 | force is 0 on an empty trail, always lies in [0, 1], is 0 exactly when the trail is empty or the touch repeats the last position, never exceeds `dd * 10000`, and equals it whenever below 1 |
| TouchTexture.ForceMonotone | js/script.js:358-361 | a touch farther from the last point never receives less force |
| TouchTexture.AddTouch | js/script.js:353-364 | the trail grows by exactly one point, placed last, at the given UV, with age 0 and the computed force; every earlier point is unchanged |
| TouchTexture.AddTouchKeepsValid | js/script.js:353-364 | appending keeps every point within its lifetime and its force in [0, 1] |
| TouchTexture.Aged | js/script.js:334 | `age++` raises the age by one and leaves position and force unchanged |
| TouchTexture.Sweep | js/script.js:333-339 | the `forEach`/`splice` pass never lengthens the array and never touches the slots before the current index |
| TouchTexture.SweepFrom | js/script.js:333-339 | resuming the pass at index `k` leaves the first `k` points as they are and treats the rest by the front-to-back rule |
| TouchTexture.Update | js/script.js:333-339 | the trail never grows, and the aging pass equals the front-to-back rule: a visited point is aged and removed exactly when its new age exceeds 120; the point right after a removed one is skipped and keeps its age |
| TouchTexture.UpdateNoEviction | js/script.js:333-339 | when no point is at age 120 yet, nothing is removed and every age grows by exactly one |
| TouchTexture.UpdateKeepsValid | js/script.js:333-339 | if every age is at most 120 before the pass, every age is at most 120 after it, forces stay in [0, 1], and the trail does not grow |
| TouchTexture.UpdateKeepsOrder | js/script.js:333-339 | the survivors are a subsequence of the trail, in the same order, with the same positions and forces |
| TouchTexture.UpdateLowersFloor | js/script.js:333-339 | each pass moves every surviving point one frame closer to eviction, counting both its age and its position in the trail |
| TouchTexture.DrainsWithin | js/script.js:330-339 | with no new touches, a valid trail is empty after `120 + |trail|` frames |
| TouchTexture.TwinOutlivesMaxAge | js/script.js:333-339 | any two points of age 0 (as added in one frame) leave only the second, at age 120, after 121 frames, and none after 122 |
| TouchTexture.RunKeepsValid | js/script.js:330-364 | any interleaving of touches and frames keeps every point within its lifetime and its force in [0, 1] |
| VisibilityMask.VisibleIndices | js/script.js:241-243 | the listed visible pixels number at most `n` and all lie below `n` |
| VisibilityMask.VisibleIndicesMembership | js/script.js:192-193 | a pixel is listed exactly when it lies in the image and its first byte exceeds the threshold |
| VisibilityMask.VisibleIndicesAscending | js/script.js:192-203 | the pixels are listed in strictly ascending order, so each appears once |
| VisibilityMask.VisibleIndicesPrefix | js/script.js:192-203 | scanning further only appends, so the records written so far never change |
| VisibilityMask.CountIsCardinality | js/script.js:241-243 | the count equals the number of distinct pixels passing the test |
| VisibilityMask.ThresholdMonotone | js/script.js:241-243 | raising the threshold never increases the count |
| VisibilityMask.AllVisible | js/script.js:241-243 | when every pixel's first byte exceeds the threshold, the count is `width * height` |
| VisibilityMask.NoneVisible | js/script.js:241-243 | when no pixel's first byte exceeds the threshold, nothing is listed |
| VisibilityMask.TwoByTwoExample | js/script.js:170-196 | a 2x2 image with first bytes 10, 200, 10, 200 keeps exactly pixels 1 and 3 at threshold 34, at offsets (1, 0) and (1, 1) |
| VisibilityMask.Offset | js/script.js:195-196 | the stored offset lies inside the image and its row-major index is the pixel index |
| VisibilityMask.OffsetOfFlatIndex | js/script.js:195-196 | every in-image position (x, y) is the offset of its own row-major index |
| VisibilityMask.OffsetInjective | js/script.js:195-196 | distinct pixels get distinct offsets |
| VisibilityMask.Discard | js/script.js:225-246 | `numVisible` is the number of distinct pixels whose first byte exceeds the threshold, and at most `width * height` |
| VisibilityMask.WriteRecord | js/script.js:195-198 | a write stores the pixel's index mod 2^16 and its exact offset in slot `j`, leaves the third offset slot 0, and changes no other particle's slots |
| VisibilityMask.CreateMesh | js/script.js:188-203 | the buffers hold exactly `numVisible` records; record `j` is the `j`-th visible pixel with its index mod 2^16 and exact `(x, y, 0)` offset; for images of at most 65536 pixels the stored index is the pixel index |
| PointerMapper.ToNdc | js/script.js:59-62 | the mapping loses nothing: the client position is recovered from its device coordinates |
| PointerMapper.NdcOnto | js/script.js:59-62 | every device coordinate is the image of some client position |
| PointerMapper.NdcCorners | js/script.js:59-62 | client position (0, 0) maps to (-1, 1) and (w, h) to (1, -1) |
| PointerMapper.NdcOrder | js/script.js:59-62 | x increases to the right; y decreases downwards |
| PointerMapper.NdcInsideCanvas | js/script.js:59-62 | a client position lies in [0, w] x [0, h] exactly when both device coordinates lie in [-1, 1] |
| PointerMapper.NdcMidpoint | js/script.js:59-62 | the mapping is affine: midpoints go to midpoints |
| PointerMapper.OnMouseMove | js/script.js:65-69 | a miss leaves the trail unchanged; a hit appends one point at the hit's UV with age 0 and the force `addTouch` computes against the last point, keeping every earlier point |
| PointerMapper.OnMouseMoveKeepsValid | js/script.js:65-69 | a pointer event keeps the trail valid |

## Left out

- `drawTouch`, `easeOutSine`, the intensity curve and the gradient radius (js/script.js:1-3, 366-403) are canvas drawing and floating-point trigonometry. The model keeps the trail, not the 64x64 texture drawn from it.
- `clear` and `texture.needsUpdate` in `update` (js/script.js:331, 341-345, 348-351) are drawing and GPU-upload side effects with no state of their own.
- The random angle of each particle (js/script.js:190, 200) is an independent `Math.random()` draw. Records carry no angle.
- Reading the image: `drawImage` with the vertical flip, `getImageData`, and `Float32Array.from` (js/script.js:229-239). The pixel bytes are the input, already in the flipped row order. `WellSized` requires exactly four bytes per pixel, which `getImageData` returns for any image of positive width and height.
- The three.js ray cast (js/script.js:63-65) is a library call. Its result enters `OnMouseMove` as a `Hit`.
- The cursor tween, `getBound`/`onResize`, the animation loop, the renderer and `show` (js/script.js:27-46, 71-74, 249-302) are DOM, tween and frame-loop plumbing.
- PointerMapper.ToNdc: maps the raw `clientX`/`clientY` as the source does (js/script.js:56-62), without subtracting the cached canvas `left`/`top` (js/script.js:40). The model therefore promises nothing about positions relative to the canvas itself; (0, 0) and (w, h) are viewport positions, which match the canvas corners only when the canvas sits at the viewport origin.
- PointerMapper.ToNdc: requires a positive canvas size. A zero-size canvas would give infinities or NaN in the source.
- PointerMapper.ToNdc: computes in exact reals. IEEE double rounding is not modelled, so `ToNdc`'s round trip, `NdcOrder` and `NdcInsideCanvas` hold for the real-valued formula only; in doubles, 0.1 on a canvas 3 wide comes back as 0.09999999999999998, and client x of 0 and 1e-300 on a canvas 800 wide both map to -1.
- TouchTexture.ForceFor: computes in exact reals. IEEE rounding is not modelled, for example `dd * 10000` of two distinct but very close points rounding to 0.
- VisibilityMask.CreateMesh: offsets are exact naturals. `Float32Array` holds them exactly only while width and height stay below 2^24.
- VisibilityMask.Discard: accepts an image of zero width or height and then counts 0, and `CreateMesh` builds empty buffers. The source never gets that far: `getImageData` on a zero-size canvas throws (js/script.js:233-238), so `discard` does not return and `createMesh` builds nothing. The model does not represent that exception.
