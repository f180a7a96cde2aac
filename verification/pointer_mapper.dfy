/**
 Models the class `PositionMouseInCanvas`, restricted to the part of its
 `onMouseMove` handler that is not a library call:
 the pointer's client position is mapped to normalised device coordinates
 against the cached canvas width and height (the cached `left` and `top` are
 not subtracted, so client (0, 0) is the viewport corner, which is the canvas
 corner only when the canvas sits there), and a hit reported by the ray cast is
 forwarded to the touch trail. The ray cast itself (camera, plane, UV lookup)
 is a three.js call and enters the model as its result, a `Hit`.
 */
module PointerMapper {
  import TouchTexture

  /** Normalised device coordinates: x and y in [-1, 1] across client [0, w] x [0, h], y pointing up. */
  datatype Ndc = Ndc(x: real, y: real)

  /**
   The mapping of lines 59-62: `x / w * 2 - 1` and `-(y / h) * 2 + 1`. It loses
   nothing: `FromNdc` recovers the client position from its device coordinates.
   */
  function ToNdc(cx: real, cy: real, w: real, h: real): (n: Ndc)
    requires w > 0.0 && h > 0.0
    ensures FromNdc(n, w, h) == (cx, cy)
  {
    var n := Ndc(cx / w * 2.0 - 1.0, -(cy / h) * 2.0 + 1.0);
    DivideThenScale(cx, w);
    DivideThenScale(cy, h);
    assert (n.x + 1.0) / 2.0 == cx / w;
    assert (1.0 - n.y) / 2.0 == cy / h;
    assert (n.x + 1.0) / 2.0 * w == cx / w * w;
    assert (1.0 - n.y) / 2.0 * h == cy / h * h;
    assert FromNdc(n, w, h).0 == cx;
    assert FromNdc(n, w, h).1 == cy;
    n
  }

  /** Back from device coordinates to a client position on a `w` by `h` canvas. */
  function FromNdc(n: Ndc, w: real, h: real): (real, real)
    requires w > 0.0 && h > 0.0
  {
    ((n.x + 1.0) / 2.0 * w, (1.0 - n.y) / 2.0 * h)
  }

  lemma DivideThenScale(a: real, w: real)
    requires w > 0.0
    ensures a / w * w == a
  {
  }

  lemma ScaleThenDivide(a: real, w: real)
    requires w > 0.0
    ensures a * w / w == a
  {
  }

  /** Every device coordinate is reached by some client position. */
  lemma NdcOnto(n: Ndc, w: real, h: real)
    requires w > 0.0 && h > 0.0
    ensures var c := FromNdc(n, w, h); ToNdc(c.0, c.1, w, h) == n
  {
    ScaleThenDivide((n.x + 1.0) / 2.0, w);
    ScaleThenDivide((1.0 - n.y) / 2.0, h);
  }

  /** Client position (0, 0) goes to (-1, 1), and (w, h) to (1, -1). */
  lemma NdcCorners(w: real, h: real)
    requires w > 0.0 && h > 0.0
    ensures ToNdc(0.0, 0.0, w, h) == Ndc(-1.0, 1.0)
    ensures ToNdc(w, h, w, h) == Ndc(1.0, -1.0)
  {
  }

  /** Moving right increases x; moving down decreases y. */
  lemma NdcOrder(cx1: real, cy1: real, cx2: real, cy2: real, w: real, h: real)
    requires w > 0.0 && h > 0.0
    ensures cx1 < cx2 ==> ToNdc(cx1, cy1, w, h).x < ToNdc(cx2, cy2, w, h).x
    ensures cy1 < cy2 ==> ToNdc(cx1, cy1, w, h).y > ToNdc(cx2, cy2, w, h).y
  {
  }

  /** A client position lies in [0, w] x [0, h] exactly when its device coordinates lie in [-1, 1]. */
  lemma NdcInsideCanvas(cx: real, cy: real, w: real, h: real)
    requires w > 0.0 && h > 0.0
    ensures 0.0 <= cx <= w <==> -1.0 <= ToNdc(cx, cy, w, h).x <= 1.0
    ensures 0.0 <= cy <= h <==> -1.0 <= ToNdc(cx, cy, w, h).y <= 1.0
  {
    UnitInterval(cx, w);
    UnitInterval(cy, h);
  }

  /** `a / w` lies in [0, 1] exactly when `a` lies in [0, w]. */
  lemma UnitInterval(a: real, w: real)
    requires w > 0.0
    ensures 0.0 <= a <= w <==> 0.0 <= a / w <= 1.0
  {
    DivideThenScale(a, w);
    var q := a / w;
    if q < 0.0 {
      assert q * w < 0.0;
    }
    if q > 1.0 {
      assert (q - 1.0) * w > 0.0;
    }
    if 0.0 <= q <= 1.0 {
      assert q * w >= 0.0;
      assert (1.0 - q) * w >= 0.0;
    }
  }

  /** The mapping is affine: it sends the midpoint of two positions to the midpoint of their images. */
  lemma NdcMidpoint(cx1: real, cy1: real, cx2: real, cy2: real, w: real, h: real)
    requires w > 0.0 && h > 0.0
    ensures ToNdc((cx1 + cx2) / 2.0, (cy1 + cy2) / 2.0, w, h)
         == Ndc((ToNdc(cx1, cy1, w, h).x + ToNdc(cx2, cy2, w, h).x) / 2.0,
                (ToNdc(cx1, cy1, w, h).y + ToNdc(cx2, cy2, w, h).y) / 2.0)
  {
  }

  /** What the ray cast against the plane reports: nothing, or the UV of the first hit. */
  datatype Hit = Miss | Hit(u: real, v: real)

  /** The trail side of `onMouseMove`: a hit becomes a touch, a miss changes nothing. */
  function OnMouseMove(t: TouchTexture.Trail, hit: Hit): (r: TouchTexture.Trail)
    ensures hit.Miss? ==> r == t
    ensures hit.Hit? ==> |r| == |t| + 1 && r[..|t|] == t
    ensures hit.Hit? ==> r[|t|].x == hit.u && r[|t|].y == hit.v && r[|t|].age == 0
    ensures hit.Hit? ==> r[|t|].force == TouchTexture.ForceFor(t, hit.u, hit.v)
  {
    match hit
    case Miss => t
    case Hit(u, v) => TouchTexture.AddTouch(t, u, v)
  }

  lemma OnMouseMoveKeepsValid(t: TouchTexture.Trail, hit: Hit)
    requires TouchTexture.Valid(t)
    ensures TouchTexture.Valid(OnMouseMove(t, hit))
  {
    if hit.Hit? {
      TouchTexture.AddTouchKeepsValid(t, hit.u, hit.v);
    }
  }
}
