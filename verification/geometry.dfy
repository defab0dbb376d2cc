/**
  Axis-aligned boxes over exact reals: the overlap measure used for association
  (`iou_batch`) and the two box representations the motion model converts
  between (`convert_bbox_to_z`, `convert_x_to_bbox`).
 */
module Geometry {

  /** A box in corner form [x1, y1, x2, y2], image coordinates. */
  datatype Box = Box(x1: real, y1: real, x2: real, y2: real)

  /** The centre form [x, y, s, r]: centre, scale (area) and aspect ratio. */
  datatype Z = Z(x: real, y: real, s: real, r: real)

  /** The caller's contract on detections: positive width and height. */
  predicate Valid(b: Box) {
    b.x1 < b.x2 && b.y1 < b.y2
  }

  function Width(b: Box): real {
    b.x2 - b.x1
  }

  function Height(b: Box): real {
    b.y2 - b.y1
  }

  function Area(b: Box): real {
    Width(b) * Height(b)
  }

  function Max(a: real, b: real): real {
    if a >= b then a else b
  }

  function Min(a: real, b: real): real {
    if a <= b then a else b
  }

  /** Width of the overlap of the two x-extents, clamped at zero. */
  function OverlapWidth(a: Box, b: Box): real {
    Max(0.0, Min(a.x2, b.x2) - Max(a.x1, b.x1))
  }

  function OverlapHeight(a: Box, b: Box): real {
    Max(0.0, Min(a.y2, b.y2) - Max(a.y1, b.y1))
  }

  function Intersection(a: Box, b: Box): real {
    OverlapWidth(a, b) * OverlapHeight(a, b)
  }

  /** Union area, as the sum of the areas less the intersection. */
  function Union(a: Box, b: Box): real {
    Area(a) + Area(b) - Intersection(a, b)
  }

  /**
    Intersection over union. Floating point yields NaN or infinity when the
    union is exactly zero, which only degenerate boxes can produce; the model
    yields 0 there.
   */
  function Iou(a: Box, b: Box): real {
    var u := Union(a, b);
    if u == 0.0 then 0.0 else Intersection(a, b) / u
  }

  /** The two boxes share no interior point. */
  predicate Disjoint(a: Box, b: Box) {
    a.x2 <= b.x1 || b.x2 <= a.x1 || a.y2 <= b.y1 || b.y2 <= a.y1
  }

  /** A dense N x M matrix of reals. */
  predicate IsMatrix(a: seq<seq<real>>, n: nat, m: nat) {
    |a| == n && forall i :: 0 <= i < n ==> |a[i]| == m
  }

  /** Pairwise IoU of every test box (rows) against every ground box (columns). */
  function IouBatch(tests: seq<Box>, gts: seq<Box>): (o: seq<seq<real>>)
    ensures IsMatrix(o, |tests|, |gts|)
    ensures forall i, j :: 0 <= i < |tests| && 0 <= j < |gts| ==> o[i][j] == Iou(tests[i], gts[j])
  {
    seq(|tests|, i requires 0 <= i < |tests| =>
      seq(|gts|, j requires 0 <= j < |gts| => Iou(tests[i], gts[j])))
  }

  /** Corner form to centre form; the aspect ratio divides by the height. */
  function ToZ(b: Box): (z: Z)
    requires b.y2 != b.y1
    ensures 2.0 * z.x == b.x1 + b.x2 && 2.0 * z.y == b.y1 + b.y2
    ensures z.s == Area(b)
    ensures z.r * Height(b) == Width(b)
    ensures Valid(b) ==> z.s > 0.0 && z.r > 0.0
  {
    var w := b.x2 - b.x1;
    var h := b.y2 - b.y1;
    Z(b.x1 + w / 2.0, b.y1 + h / 2.0, w * h, w / h)
  }

  /**
    Centre form to corner form, with the square root of s * r that the
    floating-point code computes passed in as `w`.
   */
  function FromZ(z: Z, w: real): (b: Box)
    requires w > 0.0 && w * w == z.s * z.r
    ensures Width(b) == w && Height(b) * w == z.s
    ensures b.x1 + b.x2 == 2.0 * z.x && b.y1 + b.y2 == 2.0 * z.y
  {
    var h := z.s / w;
    Box(z.x - w / 2.0, z.y - h / 2.0, z.x + w / 2.0, z.y + h / 2.0)
  }

  // ---------------------------------------------------------------------
  // Overlap facts

  lemma OverlapWithin(a: Box, b: Box)
    requires Valid(a) && Valid(b)
    ensures 0.0 <= OverlapWidth(a, b) <= Width(a) && OverlapWidth(a, b) <= Width(b)
    ensures 0.0 <= OverlapHeight(a, b) <= Height(a) && OverlapHeight(a, b) <= Height(b)
  {
  }

  lemma ProductMonotone(p: real, q: real, u: real, v: real)
    requires 0.0 <= p <= u && 0.0 <= q <= v
    ensures p * q <= u * v
  {
    assert p * q <= u * q;
    assert u * q <= u * v;
  }

  /** The intersection is non-negative and no larger than either area. */
  lemma IntersectionWithin(a: Box, b: Box)
    requires Valid(a) && Valid(b)
    ensures 0.0 <= Intersection(a, b) <= Area(a)
    ensures Intersection(a, b) <= Area(b)
    ensures 0.0 < Area(a) <= Union(a, b)
  {
    OverlapWithin(a, b);
    var ow, oh := OverlapWidth(a, b), OverlapHeight(a, b);
    assert 0.0 <= Intersection(a, b) by {
      ProductMonotone(0.0, 0.0, ow, oh);
    }
    assert Intersection(a, b) <= Area(a) by {
      ProductMonotone(ow, oh, Width(a), Height(a));
    }
    assert Intersection(a, b) <= Area(b) by {
      ProductMonotone(ow, oh, Width(b), Height(b));
    }
    assert 0.0 < Area(a) by {
      PositiveProduct(Width(a), Height(a));
    }
  }

  lemma PositiveProduct(p: real, q: real)
    requires p > 0.0 && q > 0.0
    ensures p * q > 0.0
  {
  }

  /** A ratio of a non-negative value to a larger positive one lies in [0, 1]. */
  lemma RatioInUnit(i: real, u: real)
    requires 0.0 <= i <= u && u > 0.0
    ensures 0.0 <= i / u <= 1.0
  {
    assert i / u * u == i;
  }

  /** For valid boxes, each IoU value lies in [0, 1]. */
  lemma IouInUnitInterval(a: Box, b: Box)
    requires Valid(a) && Valid(b)
    ensures 0.0 <= Iou(a, b) <= 1.0
  {
    IntersectionWithin(a, b);
    RatioInUnit(Intersection(a, b), Union(a, b));
  }

  /** A valid box overlaps itself completely. */
  lemma IouSelf(b: Box)
    requires Valid(b)
    ensures Iou(b, b) == 1.0
  {
    assert OverlapWidth(b, b) == Width(b);
    assert OverlapHeight(b, b) == Height(b);
    assert Intersection(b, b) == Area(b);
    assert Union(b, b) == Area(b) > 0.0;
    assert Area(b) / Area(b) == 1.0;
  }

  /** Valid boxes have zero IoU exactly when they are disjoint. */
  lemma IouZeroIffDisjoint(a: Box, b: Box)
    requires Valid(a) && Valid(b)
    ensures Iou(a, b) == 0.0 <==> Disjoint(a, b)
  {
    IntersectionWithin(a, b);
    var ow, oh := OverlapWidth(a, b), OverlapHeight(a, b);
    if Disjoint(a, b) {
      assert ow == 0.0 || oh == 0.0;
      assert Intersection(a, b) == 0.0;
    } else {
      assert ow > 0.0 && oh > 0.0;
      assert Intersection(a, b) > 0.0;
      assert Intersection(a, b) / Union(a, b) > 0.0;
    }
  }

  /** IoU does not depend on the order of its arguments. */
  lemma IouSymmetric(a: Box, b: Box)
    ensures Iou(a, b) == Iou(b, a)
  {
    assert OverlapWidth(a, b) == OverlapWidth(b, a);
    assert OverlapHeight(a, b) == OverlapHeight(b, a);
    assert Intersection(a, b) == Intersection(b, a);
    assert Union(a, b) == Union(b, a);
  }

  /** Every entry of the batch matrix of valid boxes lies in [0, 1]. */
  lemma IouBatchInUnitInterval(tests: seq<Box>, gts: seq<Box>)
    requires forall i :: 0 <= i < |tests| ==> Valid(tests[i])
    requires forall j :: 0 <= j < |gts| ==> Valid(gts[j])
    ensures forall i, j :: 0 <= i < |tests| && 0 <= j < |gts| ==>
      0.0 <= IouBatch(tests, gts)[i][j] <= 1.0
  {
    var o := IouBatch(tests, gts);
    forall i, j | 0 <= i < |tests| && 0 <= j < |gts|
      ensures 0.0 <= o[i][j] <= 1.0
    {
      IouInUnitInterval(tests[i], gts[j]);
    }
  }

  // ---------------------------------------------------------------------
  // Representation round trip

  /** A positive square root is unique. */
  lemma PositiveRootUnique(w: real, v: real)
    requires w > 0.0 && v > 0.0 && w * w == v * v
    ensures w == v
  {
    assert (w - v) * (w + v) == w * w - v * v;
  }

  /**
    For a valid box, s * r is the squared width; whatever positive square root
    of it is taken, converting back from the centre form returns the box.
   */
  lemma ZRoundTrip(b: Box, w: real)
    requires Valid(b)
    requires w > 0.0 && w * w == ToZ(b).s * ToZ(b).r
    ensures FromZ(ToZ(b), w) == b
  {
    var z := ToZ(b);
    var width, height := Width(b), Height(b);
    assert w == width by {
      AreaTimesRatio(z.s, z.r, width, height);
      PositiveRootUnique(w, width);
    }
    var c := FromZ(z, w);
    assert Height(c) == height by {
      CancelPositive(Height(c), height, w);
    }
  }

  /** With s = w * h and r * h = w, the product s * r is w squared. */
  lemma AreaTimesRatio(s: real, r: real, w: real, h: real)
    requires s == w * h && r * h == w
    ensures s * r == w * w
  {
    calc {
      s * r;
      (w * h) * r;
      w * (r * h);
      w * w;
    }
  }

  lemma CancelPositive(x: real, y: real, w: real)
    requires w > 0.0 && x * w == y * w
    ensures x == y
  {
    assert (x - y) * w == 0.0;
  }
}
