/**
 Models the class `WebGL`, restricted to the visibility mask of its `discard`
 and the particle buffers that the loop in its `createMesh` fills from it.

 `discard` counts the pixels whose first byte of the RGBA quad (the red
 channel in `getImageData` order) is strictly above the threshold;
 `createMesh` allocates its buffers with that count and then walks the pixels
 again, skipping those at or below the threshold, and writes one record per
 remaining pixel: the pixel index into a `Uint16Array` and the pixel's (x, y)
 into a `Float32Array` with three slots per record, the third never written.
 The random angle of each record is not modelled.
 */
module VisibilityMask {

  /** The cut-off `createMesh` hands to `discard`. */
  const Threshold: int := 34

  /** `indices` is a `Uint16Array`, so a stored pixel index wraps modulo 2^16. */
  const IndexModulus: nat := 65536

  type Byte = b: int | 0 <= b < 256

  /** `getImageData` returns four bytes per pixel for `width * height` pixels. */
  predicate WellSized(pixels: seq<Byte>, width: nat, height: nat) {
    |pixels| == 4 * (width * height)
  }

  /** The test both passes apply to pixel `i`: its quad's first byte is above the threshold. */
  predicate Visible(pixels: seq<Byte>, threshold: int, i: nat)
    requires 4 * i < |pixels|
  {
    pixels[4 * i] > threshold
  }

  /** The indices below `n` of the pixels that pass, in ascending order. */
  function VisibleIndices(pixels: seq<Byte>, threshold: int, n: nat): (r: seq<nat>)
    requires 4 * n <= |pixels|
    ensures |r| <= n
    ensures forall k :: 0 <= k < |r| ==> r[k] < n
  {
    if n == 0 then []
    else
      VisibleIndices(pixels, threshold, n - 1)
      + (if Visible(pixels, threshold, n - 1) then [n - 1] else [])
  }

  /** The same pixels as a set. */
  function VisibleSet(pixels: seq<Byte>, threshold: int, n: nat): set<nat>
    requires 4 * n <= |pixels|
  {
    set i: nat | i < n && Visible(pixels, threshold, i)
  }

  // ---------------------------------------------------------------------------
  // What the visible list is
  // ---------------------------------------------------------------------------

  /** A pixel is listed exactly when it is in range and passes the test. */
  lemma {:induction false} VisibleIndicesMembership(pixels: seq<Byte>, threshold: int, n: nat)
    requires 4 * n <= |pixels|
    ensures forall i: nat :: i in VisibleIndices(pixels, threshold, n) <==> i < n && Visible(pixels, threshold, i)
  {
    if n > 0 {
      VisibleIndicesMembership(pixels, threshold, n - 1);
    }
  }

  /** The list is strictly ascending, so no pixel is listed twice. */
  lemma {:induction false} VisibleIndicesAscending(pixels: seq<Byte>, threshold: int, n: nat)
    requires 4 * n <= |pixels|
    ensures forall a, b :: 0 <= a < b < |VisibleIndices(pixels, threshold, n)| ==>
      VisibleIndices(pixels, threshold, n)[a] < VisibleIndices(pixels, threshold, n)[b]
  {
    if n > 0 {
      VisibleIndicesAscending(pixels, threshold, n - 1);
    }
  }

  /** Scanning further only appends: the list for `m <= n` is a prefix of the list for `n`. */
  lemma {:induction false} VisibleIndicesPrefix(pixels: seq<Byte>, threshold: int, m: nat, n: nat)
    requires m <= n && 4 * n <= |pixels|
    ensures VisibleIndices(pixels, threshold, m) <= VisibleIndices(pixels, threshold, n)
    decreases n - m
  {
    if m < n {
      VisibleIndicesPrefix(pixels, threshold, m, n - 1);
    }
  }

  /** The count is the number of distinct visible pixels. */
  lemma {:induction false} CountIsCardinality(pixels: seq<Byte>, threshold: int, n: nat)
    requires 4 * n <= |pixels|
    ensures |VisibleIndices(pixels, threshold, n)| == |VisibleSet(pixels, threshold, n)|
  {
    if n > 0 {
      CountIsCardinality(pixels, threshold, n - 1);
      var before := VisibleSet(pixels, threshold, n - 1);
      if Visible(pixels, threshold, n - 1) {
        assert VisibleSet(pixels, threshold, n) == before + {n - 1};
        assert n - 1 !in before;
      } else {
        assert VisibleSet(pixels, threshold, n) == before;
      }
    } else {
      assert VisibleSet(pixels, threshold, n) == {};
    }
  }

  /** Raising the threshold never makes more pixels visible. */
  lemma {:induction false} ThresholdMonotone(pixels: seq<Byte>, t1: int, t2: int, n: nat)
    requires t1 <= t2 && 4 * n <= |pixels|
    ensures |VisibleIndices(pixels, t2, n)| <= |VisibleIndices(pixels, t1, n)|
  {
    if n > 0 {
      ThresholdMonotone(pixels, t1, t2, n - 1);
    }
  }

  /** If every pixel passes, every pixel is listed. */
  lemma {:induction false} AllVisible(pixels: seq<Byte>, threshold: int, n: nat)
    requires 4 * n <= |pixels|
    requires forall i :: 0 <= i < n ==> pixels[4 * i] > threshold
    ensures |VisibleIndices(pixels, threshold, n)| == n
  {
    if n > 0 {
      AllVisible(pixels, threshold, n - 1);
    }
  }

  /** If no pixel passes, nothing is listed. */
  lemma {:induction false} NoneVisible(pixels: seq<Byte>, threshold: int, n: nat)
    requires 4 * n <= |pixels|
    requires forall i :: 0 <= i < n ==> pixels[4 * i] <= threshold
    ensures VisibleIndices(pixels, threshold, n) == []
  {
    if n > 0 {
      NoneVisible(pixels, threshold, n - 1);
    }
  }

  /**
   A 2x2 image whose quads start with 10, 200, 10, 200 keeps pixels 1 and 3,
   at offsets (1, 0) and (1, 1).
   */
  lemma TwoByTwoExample()
    ensures VisibleIndices([10, 0, 0, 0, 200, 0, 0, 0, 10, 0, 0, 0, 200, 0, 0, 0], Threshold, 4) == [1, 3]
    ensures Offset(1, 2, 2) == (1, 0) && Offset(3, 2, 2) == (1, 1)
  {
    var px: seq<Byte> := [10, 0, 0, 0, 200, 0, 0, 0, 10, 0, 0, 0, 200, 0, 0, 0];
    assert VisibleIndices(px, Threshold, 1) == [];
    assert VisibleIndices(px, Threshold, 2) == [1];
    assert VisibleIndices(px, Threshold, 3) == [1];
  }

  // ---------------------------------------------------------------------------
  // Pixel offsets
  // ---------------------------------------------------------------------------

  /** The row-major index of pixel (x, y) in an image `width` pixels wide. */
  function FlatIndex(x: nat, y: nat, width: nat): nat {
    y * width + x
  }

  /** The offset a record stores for pixel `i`: `i % width` and `floor(i / width)`. */
  function Offset(i: nat, width: nat, height: nat): (xy: (nat, nat))
    requires i < width * height
    ensures xy.0 < width && xy.1 < height
    ensures FlatIndex(xy.0, xy.1, width) == i
  {
    OffsetBounds(i, width, height);
    (i % width, i / width)
  }

  lemma OffsetBounds(i: nat, width: nat, height: nat)
    requires i < width * height
    ensures width > 0
    ensures i / width < height
    ensures (i / width) * width + i % width == i
  {
  }

  /** Every in-image position is the offset of its own flat index. */
  lemma OffsetOfFlatIndex(x: nat, y: nat, width: nat, height: nat)
    requires x < width && y < height
    ensures FlatIndex(x, y, width) < width * height
    ensures Offset(FlatIndex(x, y, width), width, height) == (x, y)
  {
    var i := FlatIndex(x, y, width);
    ScaleMonotone(y + 1, height, width);
    var xy := Offset(i, width, height);
    ScaleMonotone(xy.1 + 1, y, width);
    ScaleMonotone(y + 1, xy.1, width);
  }

  lemma {:induction false} ScaleMonotone(a: nat, b: nat, w: nat)
    ensures a <= b ==> a * w <= b * w
    decreases b
  {
    if a < b {
      ScaleMonotone(a, b - 1, w);
      assert (b - 1) * w + w == b * w;
    }
  }

  /** An offset pins down its pixel: distinct pixels get distinct offsets. */
  lemma OffsetInjective(i: nat, j: nat, width: nat, height: nat)
    requires i < width * height && j < width * height
    requires Offset(i, width, height) == Offset(j, width, height)
    ensures i == j
  {
  }

  // ---------------------------------------------------------------------------
  // discard and createMesh
  // ---------------------------------------------------------------------------

  /** `discard`: the number of visible pixels. */
  method Discard(pixels: seq<Byte>, width: nat, height: nat, threshold: int) returns (numVisible: nat)
    requires WellSized(pixels, width, height)
    ensures numVisible == |VisibleSet(pixels, threshold, width * height)|
    ensures numVisible == |VisibleIndices(pixels, threshold, width * height)|
    ensures numVisible <= width * height
  {
    var numPoints := width * height;
    numVisible := 0;
    var i := 0;
    while i < numPoints
      invariant i <= numPoints
      invariant numVisible == |VisibleIndices(pixels, threshold, i)|
    {
      if pixels[4 * i] > threshold {
        numVisible := numVisible + 1;
      }
      i := i + 1;
    }
    CountIsCardinality(pixels, threshold, numPoints);
  }

  /** What the buffers hold for one particle: the stored index and the three offset slots. */
  datatype Slots = Slots(index: nat, x: nat, y: nat, z: nat)

  /** Particle `j`'s slots: `indices[j]` and `offsets[3j .. 3j + 2]`. */
  function SlotsAt(indices: seq<nat>, offsets: seq<nat>, j: nat): Slots
    requires j < |indices| && 3 * j + 2 < |offsets|
  {
    Slots(indices[j], offsets[3 * j], offsets[3 * j + 1], offsets[3 * j + 2])
  }

  /** The slots describe pixel `p`: its index modulo 2^16 and its exact offset (x, y, 0). */
  predicate Describes(r: Slots, width: nat, height: nat, p: nat) {
    && r.index == p % IndexModulus
    && r.x < width
    && r.y < height
    && FlatIndex(r.x, r.y, width) == p
    && r.z == 0
  }

  /**
   The body of the `createMesh` loop for a kept pixel `i` (lines 195-198):
   `offsets[3j] = i % width`, `offsets[3j + 1] = floor(i / width)`,
   `indices[j] = i` through the 16-bit store. Nothing else is written.
   */
  method WriteRecord(indices: seq<nat>, offsets: seq<nat>, j: nat, i: nat, width: nat, height: nat)
    returns (indices': seq<nat>, offsets': seq<nat>)
    requires j < |indices| && |offsets| == 3 * |indices| && i < width * height
    requires SlotsAt(indices, offsets, j).z == 0
    ensures |indices'| == |indices| && |offsets'| == |offsets|
    ensures Describes(SlotsAt(indices', offsets', j), width, height, i)
    ensures forall k :: 0 <= k < |indices| && k != j ==> SlotsAt(indices', offsets', k) == SlotsAt(indices, offsets, k)
  {
    var xy := Offset(i, width, height);
    offsets' := offsets[3 * j := xy.0];
    offsets' := offsets'[3 * j + 1 := xy.1];
    indices' := indices[j := i % IndexModulus];
  }

  /** Filling slot `j` for `visible[j]` extends the described prefix by one. */
  lemma ExtendDescribed(indices: seq<nat>, offsets: seq<nat>, indices': seq<nat>, offsets': seq<nat>,
                        j: nat, width: nat, height: nat, visible: seq<nat>)
    requires j < |indices| == |indices'| && |offsets| == |offsets'| == 3 * |indices| && j < |visible|
    requires forall k :: 0 <= k < j ==> Describes(SlotsAt(indices, offsets, k), width, height, visible[k])
    requires forall k :: 0 <= k < |indices| && k != j ==> SlotsAt(indices', offsets', k) == SlotsAt(indices, offsets, k)
    requires Describes(SlotsAt(indices', offsets', j), width, height, visible[j])
    ensures forall k :: 0 <= k <= j ==> Describes(SlotsAt(indices', offsets', k), width, height, visible[k])
  {
  }

  /**
   The buffer-filling loop of `createMesh`: `indices` and `offsets` are
   allocated from the count `discard` returns, and slot `j` gets the `j`-th
   visible pixel. Every write lands inside the allocation, so no record is lost.
   */
  method CreateMesh(pixels: seq<Byte>, width: nat, height: nat, threshold: int)
    returns (indices: seq<nat>, offsets: seq<nat>)
    requires WellSized(pixels, width, height)
    ensures |indices| == |VisibleSet(pixels, threshold, width * height)|
    ensures |offsets| == 3 * |indices|
    ensures |indices| == |VisibleIndices(pixels, threshold, width * height)|
    ensures forall j :: 0 <= j < |indices| ==>
      Describes(SlotsAt(indices, offsets, j), width, height, VisibleIndices(pixels, threshold, width * height)[j])
    ensures width * height <= IndexModulus ==>
      forall j :: 0 <= j < |indices| ==> indices[j] == VisibleIndices(pixels, threshold, width * height)[j]
  {
    var numVisible := Discard(pixels, width, height, threshold);
    var numPoints := width * height;
    ghost var visible := VisibleIndices(pixels, threshold, numPoints);

    indices := seq(numVisible, _ => 0);
    offsets := seq(3 * numVisible, _ => 0);

    var i, j := 0, 0;
    while i < numPoints
      invariant i <= numPoints
      invariant |indices| == numVisible && |offsets| == 3 * numVisible
      invariant j == |VisibleIndices(pixels, threshold, i)| <= |visible|
      invariant VisibleIndices(pixels, threshold, i) == visible[..j]
      invariant forall k :: 0 <= k < j ==> Describes(SlotsAt(indices, offsets, k), width, height, visible[k])
      invariant forall k :: j <= k < numVisible ==> SlotsAt(indices, offsets, k).z == 0
    {
      VisibleIndicesPrefix(pixels, threshold, i + 1, numPoints);
      if pixels[4 * i] <= threshold {
        i := i + 1;
        continue;
      }
      assert VisibleIndices(pixels, threshold, i + 1) == visible[..j] + [i];
      assert j < numVisible && visible[j] == i;
      var indices', offsets' := WriteRecord(indices, offsets, j, i, width, height);
      ExtendDescribed(indices, offsets, indices', offsets', j, width, height, visible);
      indices, offsets := indices', offsets';
      j := j + 1;
      i := i + 1;
    }
    VisibleIndicesPrefix(pixels, threshold, numPoints, numPoints);
  }
}
