/**
 The touch trail of the `TouchTexture` class: an ordered sequence of touch
 points that `addTouch` appends to and that every frame's `update` ages and
 evicts. The canvas rasterisation of the trail (clearing the 64x64 buffer and
 drawing one radial gradient per point) is not modelled; only the trail is.

 The aging pass of `update` is a `forEach` whose callback `splice`s the current
 element out of the array it is iterating over. `forEach` keeps advancing its
 index while the array shrinks, so the element that slides into a removed slot
 is not visited in that frame and keeps its age. `Sweep` reproduces that
 index-stepping behaviour exactly; `AgeFrom` is an independent head/tail
 description of the same pass, and the lemmas below relate the two.
 */
module TouchTexture {

  /** Frames a point may live; a point is evicted once its age exceeds this. */
  const MaxAge: nat := 120

  /** Factor from squared pointer displacement (in UV units) to force. */
  const Sensitivity: real := 10000.0

  /** One touch: its UV position, frames since creation, and its force. */
  datatype TouchPoint = TouchPoint(x: real, y: real, age: nat, force: real)

  type Trail = seq<TouchPoint>

  /** The state every reachable point is in: not yet past its lifetime, force in [0, 1]. */
  predicate Good(p: TouchPoint) {
    p.age <= MaxAge && 0.0 <= p.force <= 1.0
  }

  predicate Valid(t: Trail) {
    forall i :: 0 <= i < |t| ==> Good(t[i])
  }

  function Min(a: real, b: real): (m: real)
    ensures m <= a && m <= b
    ensures m == a || m == b
  {
    if a <= b then a else b
  }

  /**
   Real multiplication behind a function: each square `dx * dx` stays a term of
   its own, about which `SquareSign` states the sign facts the proofs need.
   */
  function Product(a: real, b: real): real {
    a * b
  }

  lemma ProductPositive(a: real, b: real)
    requires a > 0.0 && b > 0.0
    ensures Product(a, b) > 0.0
  {
  }

  lemma SquareSign(d: real)
    ensures Product(d, d) >= 0.0
    ensures d != 0.0 ==> Product(d, d) > 0.0
  {
    if d < 0.0 {
      ProductPositive(-d, -d);
      assert Product(d, d) == Product(-d, -d);
    } else if d > 0.0 {
      ProductPositive(d, d);
    }
  }

  /** Squared distance between a point's position and (x, y): `dx * dx + dy * dy`. */
  function SquaredDistance(p: TouchPoint, x: real, y: real): (dd: real)
    ensures dd >= 0.0
    ensures dd == 0.0 <==> p.x == x && p.y == y
  {
    SquareSign(p.x - x);
    SquareSign(p.y - y);
    Product(p.x - x, p.x - x) + Product(p.y - y, p.y - y)
  }

  // ---------------------------------------------------------------------------
  // addTouch
  // ---------------------------------------------------------------------------

  /** The force a new touch at (x, y) receives given the trail so far. */
  function ForceFor(t: Trail, x: real, y: real): (f: real)
    ensures 0.0 <= f <= 1.0
    ensures t == [] ==> f == 0.0
    ensures f == 0.0 <==> t == [] || (t[|t| - 1].x == x && t[|t| - 1].y == y)
    ensures t != [] ==> f <= SquaredDistance(t[|t| - 1], x, y) * Sensitivity
    ensures t != [] && f < 1.0 ==> f == SquaredDistance(t[|t| - 1], x, y) * Sensitivity
  {
    if |t| == 0 then 0.0
    else Min(SquaredDistance(t[|t| - 1], x, y) * Sensitivity, 1.0)
  }

  /** `addTouch`: append a fresh point (age 0) at (x, y). */
  function AddTouch(t: Trail, x: real, y: real): (r: Trail)
    ensures |r| == |t| + 1
    ensures r[..|t|] == t
    ensures r[|t|].x == x && r[|t|].y == y && r[|t|].age == 0
    ensures r[|t|].force == ForceFor(t, x, y)
    ensures Good(r[|t|])
  {
    t + [TouchPoint(x, y, 0, ForceFor(t, x, y))]
  }

  /** A farther touch never gets less force than a nearer one. */
  lemma ForceMonotone(t: Trail, x1: real, y1: real, x2: real, y2: real)
    requires t != []
    requires SquaredDistance(t[|t| - 1], x1, y1) <= SquaredDistance(t[|t| - 1], x2, y2)
    ensures ForceFor(t, x1, y1) <= ForceFor(t, x2, y2)
  {
  }

  lemma AddTouchKeepsValid(t: Trail, x: real, y: real)
    requires Valid(t)
    ensures Valid(AddTouch(t, x, y))
  {
    var r := AddTouch(t, x, y);
    forall i | 0 <= i < |r|
      ensures Good(r[i])
    {
      if i < |t| {
        assert r[i] == r[..|t|][i];
      }
    }
  }

  // ---------------------------------------------------------------------------
  // update: aging and eviction
  // ---------------------------------------------------------------------------

  /** The point after `point.age++`. */
  function Aged(p: TouchPoint): (q: TouchPoint)
    ensures q.age == p.age + 1
    ensures q.x == p.x && q.y == p.y && q.force == p.force
  {
    p.(age := p.age + 1)
  }

  predicate Expired(p: TouchPoint) {
    p.age > MaxAge
  }

  /**
   The `forEach` aging pass resumed at index `k` of the array `cur` as it
   currently stands. `forEach` fixed its length at the start, but it only calls
   back for indices still present, and the array only shrinks, so stopping at
   `k >= |cur|` is the same as stopping at the original length. A removal
   splices index `k` out and still moves on to `k + 1`.
   */
  function Sweep(cur: Trail, k: nat): (r: Trail)
    decreases |cur| - k
    ensures |r| <= |cur|
    ensures k <= |cur| ==> k <= |r| && r[..k] == cur[..k]
  {
    if k >= |cur| then cur
    else if Expired(Aged(cur[k])) then
      var next := cur[..k] + cur[k + 1..];
      assert next[..k] == cur[..k];
      Sweep(next, k + 1)
    else
      var next := cur[k := Aged(cur[k])];
      assert next[..k] == cur[..k];
      Sweep(next, k + 1)
  }

  /**
   The aging and eviction part of `update`. The index-stepping pass equals the
   front-to-back description `AgeFrom`, and never lengthens the trail.
   */
  function Update(t: Trail): (r: Trail)
    ensures r == AgeFrom(t, false)
    ensures |r| <= |t|
  {
    SweepFrom(t, 0);
    assert t[..0] == [] && t[0..] == t;
    Sweep(t, 0)
  }

  /**
   The same pass read from the original trail front to back: `skip` says the
   previous point was just removed, so this one slides into its slot and is not
   visited; a visited point is aged, and dropped if that makes it expire.
   */
  function AgeFrom(t: Trail, skip: bool): Trail {
    if t == [] then []
    else if skip then [t[0]] + AgeFrom(t[1..], false)
    else if Expired(Aged(t[0])) then AgeFrom(t[1..], true)
    else [Aged(t[0])] + AgeFrom(t[1..], false)
  }

  lemma {:induction false} SweepFrom(cur: Trail, k: nat)
    requires k <= |cur|
    ensures Sweep(cur, k) == cur[..k] + AgeFrom(cur[k..], false)
    decreases |cur| - k
  {
    if k == |cur| {
      assert cur[k..] == [];
    } else {
      var rest := cur[k..];
      assert rest[0] == cur[k];
      assert rest[1..] == cur[k + 1..];
      if Expired(Aged(cur[k])) {
        var next := cur[..k] + cur[k + 1..];
        if k + 1 > |next| {
          assert cur[k + 1..] == [];
          assert AgeFrom(cur[k + 1..], true) == [];
        } else {
          SweepFrom(next, k + 1);
          assert next[..k + 1] == cur[..k] + [cur[k + 1]];
          assert next[k + 1..] == cur[k + 2..];
          var tail := cur[k + 1..];
          assert tail[0] == cur[k + 1] && tail[1..] == cur[k + 2..];
        }
      } else {
        var next := cur[k := Aged(cur[k])];
        SweepFrom(next, k + 1);
        assert next[..k + 1] == cur[..k] + [Aged(cur[k])];
        assert next[k + 1..] == cur[k + 1..];
      }
    }
  }

  /** When no point is at the end of its lifetime nothing is removed and every age grows by one. */
  lemma {:induction false} AgeFromNoEviction(t: Trail)
    requires forall i :: 0 <= i < |t| ==> t[i].age < MaxAge
    ensures AgeFrom(t, false) == seq(|t|, i requires 0 <= i < |t| => Aged(t[i]))
  {
    if t != [] {
      AgeFromNoEviction(t[1..]);
    }
  }

  lemma UpdateNoEviction(t: Trail)
    requires forall i :: 0 <= i < |t| ==> t[i].age < MaxAge
    ensures |Update(t)| == |t|
    ensures forall i :: 0 <= i < |t| ==> Update(t)[i] == Aged(t[i])
  {
    AgeFromNoEviction(t);
  }

  lemma {:induction false} AgeFromShrinks(t: Trail, skip: bool)
    ensures |AgeFrom(t, skip)| <= |t|
  {
    if t != [] {
      AgeFromShrinks(t[1..], true);
      AgeFromShrinks(t[1..], false);
    }
  }

  lemma {:induction false} AgeFromKeepsValid(t: Trail, skip: bool)
    requires Valid(t)
    ensures Valid(AgeFrom(t, skip))
  {
    if t != [] {
      assert Good(t[0]);
      assert Valid(t[1..]) by {
        forall i | 0 <= i < |t[1..]| ensures Good(t[1..][i]) {
          assert t[1..][i] == t[i + 1];
        }
      }
      AgeFromKeepsValid(t[1..], true);
      AgeFromKeepsValid(t[1..], false);
    }
  }

  /** `update` keeps every age within the lifetime and never lengthens the trail. */
  lemma UpdateKeepsValid(t: Trail)
    requires Valid(t)
    ensures Valid(Update(t))
    ensures |Update(t)| <= |t|
  {
    AgeFromKeepsValid(t, false);
    AgeFromShrinks(t, false);
  }

  // ---------------------------------------------------------------------------
  // Order of survivors
  // ---------------------------------------------------------------------------

  /** What `update` never changes about a point: its position and force. */
  datatype Anchor = Anchor(x: real, y: real, force: real)

  function Anchors(t: Trail): (a: seq<Anchor>)
    ensures |a| == |t|
    ensures forall i :: 0 <= i < |t| ==> a[i] == Anchor(t[i].x, t[i].y, t[i].force)
  {
    if t == [] then [] else [Anchor(t[0].x, t[0].y, t[0].force)] + Anchors(t[1..])
  }

  /** `a` can be obtained from `b` by deleting elements. */
  predicate Embeds<T(==)>(a: seq<T>, b: seq<T>)
    decreases |b|
  {
    if a == [] then true
    else if b == [] then false
    else (a[0] == b[0] && Embeds(a[1..], b[1..])) || Embeds(a, b[1..])
  }

  lemma {:induction false} AgeFromKeepsOrder(t: Trail, skip: bool)
    ensures Embeds(Anchors(AgeFrom(t, skip)), Anchors(t))
  {
    if t != [] {
      var r := AgeFrom(t, skip);
      AgeFromKeepsOrder(t[1..], false);
      AgeFromKeepsOrder(t[1..], true);
      assert Anchors(t)[1..] == Anchors(t[1..]);
      if skip || !Expired(Aged(t[0])) {
        assert r[1..] == AgeFrom(t[1..], false);
        assert Anchors(r)[1..] == Anchors(r[1..]);
      }
    }
  }

  /** Survivors of `update` keep their relative order, position and force. */
  lemma UpdateKeepsOrder(t: Trail)
    ensures Embeds(Anchors(Update(t)), Anchors(t))
  {
    AgeFromKeepsOrder(t, false);
  }

  // ---------------------------------------------------------------------------
  // Lifetime bound
  // ---------------------------------------------------------------------------

  /** `n` consecutive frames with no touches in between. */
  function UpdateN(t: Trail, n: nat): Trail {
    if n == 0 then t else Update(UpdateN(t, n - 1))
  }

  /**
   Every point at position `j` is old enough that it will be gone within
   `b` frames: `age + b >= MaxAge + 1 + j`.
   */
  predicate AgeFloor(t: Trail, b: int) {
    forall j :: 0 <= j < |t| ==> t[j].age + b >= MaxAge + 1 + j
  }

  /**
   The floor drops by one per frame: a kept point was visited (its age grew)
   or was skipped because the point before it was removed (its position shrank).
   `t` starts at original position `o` and its first result lands at `o'`.
   */
  lemma {:induction false} AgeFromFloor(t: Trail, skip: bool, o: int, o': int, b: int)
    requires o' <= o && (skip ==> o' < o)
    requires forall j :: 0 <= j < |t| ==> t[j].age + b >= MaxAge + 1 + o + j
    ensures forall j :: 0 <= j < |AgeFrom(t, skip)| ==> AgeFrom(t, skip)[j].age + (b - 1) >= MaxAge + 1 + o' + j
  {
    if t != [] {
      var r := AgeFrom(t, skip);
      assert forall j :: 0 <= j < |t[1..]| ==> t[1..][j].age + b >= MaxAge + 1 + (o + 1) + j by {
        forall j | 0 <= j < |t[1..]| ensures t[1..][j].age + b >= MaxAge + 1 + (o + 1) + j {
          assert t[1..][j] == t[j + 1];
        }
      }
      if skip {
        AgeFromFloor(t[1..], false, o + 1, o' + 1, b);
        assert r == [t[0]] + AgeFrom(t[1..], false);
      } else if Expired(Aged(t[0])) {
        AgeFromFloor(t[1..], true, o + 1, o', b);
      } else {
        AgeFromFloor(t[1..], false, o + 1, o' + 1, b);
        assert r == [Aged(t[0])] + AgeFrom(t[1..], false);
      }
    }
  }

  lemma UpdateLowersFloor(t: Trail, b: int)
    requires AgeFloor(t, b)
    ensures AgeFloor(Update(t), b - 1)
  {
    AgeFromFloor(t, false, 0, 0, b);
  }

  lemma {:induction false} UpdateNFloor(t: Trail, n: nat)
    requires Valid(t)
    ensures Valid(UpdateN(t, n))
    ensures AgeFloor(UpdateN(t, n), MaxAge + |t| - n)
  {
    if n == 0 {
    } else {
      UpdateNFloor(t, n - 1);
      UpdateKeepsValid(UpdateN(t, n - 1));
      UpdateLowersFloor(UpdateN(t, n - 1), MaxAge + |t| - (n - 1));
    }
  }

  /**
   With no new touches, a valid trail is empty after `MaxAge + |t|` frames.
   The `|t|` term is needed: each removal can postpone the point behind it by one frame.
   */
  lemma DrainsWithin(t: Trail)
    requires Valid(t)
    ensures UpdateN(t, MaxAge + |t|) == []
  {
    UpdateNFloor(t, MaxAge + |t|);
    var u := UpdateN(t, MaxAge + |t|);
    assert u != [] ==> var p := u[0]; Good(p) && p.age >= MaxAge + 1;
  }

  /** Two points of age 0, both of age `n` after `n` quiet frames. */
  lemma {:induction false} TwinAging(p: TouchPoint, q: TouchPoint, n: nat)
    requires p.age == 0 && q.age == 0 && n <= MaxAge
    ensures UpdateN([p, q], n) == [p.(age := n), q.(age := n)]
  {
    if n > 0 {
      TwinAging(p, q, n - 1);
      var p' := p.(age := n - 1);
      var q' := q.(age := n - 1);
      assert Update([p', q']) == AgeFrom([p', q'], false);
      assert [p', q'][1..] == [q'];
      assert [q'][1..] == [];
    }
  }

  /**
   `MaxAge + 1` frames are not always enough: of two points added in the same
   frame the second is skipped when the first is removed, and outlives it by a frame.
   */
  lemma TwinOutlivesMaxAge(p: TouchPoint, q: TouchPoint)
    requires p.age == 0 && q.age == 0
    ensures UpdateN([p, q], MaxAge + 1) == [q.(age := MaxAge)]
    ensures UpdateN([p, q], MaxAge + 2) == []
  {
    TwinAging(p, q, MaxAge);
    var p' := p.(age := MaxAge);
    var q' := q.(age := MaxAge);
    assert Update([p', q']) == AgeFrom([p', q'], false);
    assert [p', q'][1..] == [q'];
    assert [q'][1..] == [];
    assert Update([q']) == AgeFrom([q'], false);
  }

  // ---------------------------------------------------------------------------
  // Event sequences
  // ---------------------------------------------------------------------------

  /** What reaches the trail: a touch at a UV position, or a frame's `update`. */
  datatype Event = Touch(x: real, y: real) | Frame

  function Step(t: Trail, e: Event): Trail {
    match e
    case Touch(x, y) => AddTouch(t, x, y)
    case Frame => Update(t)
  }

  function Run(t: Trail, es: seq<Event>): Trail
    decreases |es|
  {
    if es == [] then t else Run(Step(t, es[0]), es[1..])
  }

  /** From any valid trail, any interleaving of touches and frames keeps every point valid. */
  lemma {:induction false} RunKeepsValid(t: Trail, es: seq<Event>)
    requires Valid(t)
    ensures Valid(Run(t, es))
    decreases |es|
  {
    if es != [] {
      match es[0] {
        case Touch(x, y) => AddTouchKeepsValid(t, x, y);
        case Frame => UpdateKeepsValid(t);
      }
      RunKeepsValid(Step(t, es[0]), es[1..]);
    }
  }
}
