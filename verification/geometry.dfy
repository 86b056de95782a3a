/** Integer points, exact ceilings and squared distances used by the
    character model. */
module Geometry {

  /** A pixel position; the top-left corner of a sprite or a target point. */
  datatype Point = Point(x: int, y: int)

  /** The ceiling of a / b for a positive divisor, i.e. Python's
      `math.ceil(a / b)` in exact arithmetic (Dafny's `/` is Euclidean, so
      negating twice turns its floor into a ceiling). */
  function CeilDiv(a: int, b: int): (q: int)
    requires b > 0
    ensures (q - 1) * b < a <= q * b
  {
    var d := (-a) / b;
    assert b * d + (-a) % b == -a;
    -d
  }

  /** The bracket of CeilDiv determines it: any q with (q-1)*b < a <= q*b is
      the ceiling. */
  lemma CeilDivUnique(a: int, b: int, q: int)
    requires b > 0
    requires (q - 1) * b < a <= q * b
    ensures CeilDiv(a, b) == q
  {
    var c := CeilDiv(a, b);
    if c < q {
      assert c * b <= (q - 1) * b by { MulMonotone(c, q - 1, b); }
      assert false;
    } else if c > q {
      assert q * b <= (c - 1) * b by { MulMonotone(q, c - 1, b); }
      assert false;
    }
  }

  lemma MulMonotone(x: int, y: int, b: int)
    requires x <= y && b > 0
    ensures x * b <= y * b
  {
  }

  /** Squared Euclidean distance. Comparing it orders points exactly as
      comparing `findDistance`, whose square root is monotone. */
  function Dist2(p: Point, q: Point): (d: int)
    ensures d >= 0
    ensures d == 0 <==> p == q
  {
    (q.x - p.x) * (q.x - p.x) + (q.y - p.y) * (q.y - p.y)
  }

  /** `findDistance` takes a square root of the squared distance. For any
      non-negative roots of two squared distances, the roots compare as the
      squared distances do, so nearest-point choices made on `Dist2` match
      the ones made on `findDistance` (in exact arithmetic). */
  lemma DistanceOrder(p: Point, q: Point, t: Point, dp: real, dq: real)
    requires dp >= 0.0 && dq >= 0.0
    requires dp * dp == Dist2(p, t) as real && dq * dq == Dist2(q, t) as real
    ensures dp < dq <==> Dist2(p, t) < Dist2(q, t)
  {
    var a, b := Dist2(p, t) as real, Dist2(q, t) as real;
    var pp, qq := dp * dp, dq * dq;
    assert pp == a && qq == b;
    if dp < dq {
      assert pp <= dp * dq < qq;
    } else {
      assert qq <= dq * dp <= pp;
    }
  }
}
