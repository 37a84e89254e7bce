/** Axis-aligned boxes and the intersection-over-union measure of
    `torchvision.ops.box_iou`, over exact reals. */
module Geometry {

  /** A box `[x1, y1, x2, y2]` in pixel coordinates. */
  datatype Box = Box(x1: real, y1: real, x2: real, y2: real)

  /** `x1 <= x2` and `y1 <= y2`, with a positive area. */
  predicate NonDegenerate(b: Box) {
    b.x1 < b.x2 && b.y1 < b.y2
  }

  function Max(a: real, b: real): real { if a >= b then a else b }
  function Min(a: real, b: real): real { if a <= b then a else b }
  function ClampZero(a: real): real { if a >= 0.0 then a else 0.0 }

  function Area(b: Box): real {
    (b.x2 - b.x1) * (b.y2 - b.y1)
  }

  /** Area of the overlap; each side is clamped at zero as box_iou does. */
  function Inter(a: Box, b: Box): real {
    ClampZero(Min(a.x2, b.x2) - Max(a.x1, b.x1)) * ClampZero(Min(a.y2, b.y2) - Max(a.y1, b.y1))
  }

  function Union(a: Box, b: Box): real {
    Area(a) + Area(b) - Inter(a, b)
  }

  /** `iou(a, b) > t`, written without division. When the union is zero the
      library's ratio is 0/0 (NaN), which compares false; when it is negative
      (malformed boxes) the ratio is never above a positive threshold. */
  predicate IouExceeds(a: Box, b: Box, t: real) {
    Union(a, b) > 0.0 && Inter(a, b) > t * Union(a, b)
  }

  /** The ratio itself, used only to rank boxes that already exceed a
      threshold (their union is positive). */
  function Iou(a: Box, b: Box): real {
    if Union(a, b) > 0.0 then Inter(a, b) / Union(a, b) else 0.0
  }

  /** The division-free comparison agrees with the ratio. */
  lemma IouExceedsIff(a: Box, b: Box, t: real)
    requires Union(a, b) > 0.0
    ensures IouExceeds(a, b, t) <==> Iou(a, b) > t
  {
    var u, i := Union(a, b), Inter(a, b);
    assert i == Iou(a, b) * u;
    if Iou(a, b) > t {
      assert (Iou(a, b) - t) * u > 0.0;
    } else {
      assert (t - Iou(a, b)) * u >= 0.0;
    }
  }

  lemma PositiveProduct(x: real, y: real)
    requires x > 0.0 && y > 0.0
    ensures x * y > 0.0
  {
  }

  lemma IouSymmetric(a: Box, b: Box)
    ensures Inter(a, b) == Inter(b, a) && Union(a, b) == Union(b, a)
    ensures Iou(a, b) == Iou(b, a)
    ensures forall t :: IouExceeds(a, b, t) <==> IouExceeds(b, a, t)
  {
  }

  /** A non-degenerate box overlaps itself completely: IoU 1, above any
      threshold below 1. */
  lemma SelfIou(b: Box, t: real)
    requires NonDegenerate(b)
    requires t < 1.0
    ensures Inter(b, b) == Area(b) == Union(b, b) > 0.0
    ensures Iou(b, b) == 1.0
    ensures IouExceeds(b, b, t)
  {
    var w, h := b.x2 - b.x1, b.y2 - b.y1;
    assert ClampZero(Min(b.x2, b.x2) - Max(b.x1, b.x1)) == w;
    assert ClampZero(Min(b.y2, b.y2) - Max(b.y1, b.y1)) == h;
    PositiveProduct(w, h);
    var a := Area(b);
    assert Inter(b, b) == a;
    assert Union(b, b) == a;
    PositiveProduct(1.0 - t, a);
    assert Iou(b, b) == a / a;
    assert a / a == 1.0;
  }
}
