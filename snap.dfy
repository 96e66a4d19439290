/** Snapping a raw surface hit to the nearest wireframe feature of the hit
    triangle: its three vertices and the clamped projections of the hit point
    onto its three edges (src/main.js, closestPointOnSegment and
    snapHitToWireframe). */
module Snap {
  import opened Vectors
  import opened Options

  /** The hit triangle's vertices, already transformed to world space. */
  datatype Triangle = Triangle(a: Vec3, b: Vec3, c: Vec3)

  /** What the raycaster reports for one intersection: the world-space hit
      point and, when the intersected object has a face and a position
      attribute, that face. */
  datatype Hit = Hit(point: Vec3, face: Option<Triangle>)

  function Clamp(v: real, lo: real, hi: real): (r: real)
    requires lo <= hi
    ensures lo <= r <= hi
    ensures lo <= v <= hi ==> r == v
    ensures v < lo ==> r == lo
    ensures v > hi ==> r == hi
  {
    if v < lo then lo else if v > hi then hi else v
  }

  /** The point of segment [a, b] at parameter t. */
  function PointAt(a: Vec3, b: Vec3, t: real): Vec3
  {
    Add(a, Scale(Sub(b, a), t))
  }

  /** The clamped projection parameter used by closestPointOnSegment. */
  function SegmentParam(p: Vec3, a: Vec3, b: Vec3): (t: real)
    requires LengthSq(Sub(b, a)) != 0.0
    ensures 0.0 <= t <= 1.0
  {
    var ab := Sub(b, a);
    Clamp(Dot(Sub(p, a), ab) / LengthSq(ab), 0.0, 1.0)
  }

  /** closestPointOnSegment(point, a, b): `a` itself for a zero-length
      segment, otherwise a + t (b - a) with t the clamped projection. */
  function ClosestPointOnSegment(p: Vec3, a: Vec3, b: Vec3): (r: Vec3)
    ensures LengthSq(Sub(b, a)) == 0.0 ==> r == a
    ensures LengthSq(Sub(b, a)) != 0.0 ==> r == PointAt(a, b, SegmentParam(p, a, b))
  {
    var ab := Sub(b, a);
    if LengthSq(ab) == 0.0 then a else PointAt(a, b, SegmentParam(p, a, b))
  }

  /** A zero-length segment, or a point whose perpendicular foot lies at or
      before `a`, yields `a`. */
  lemma ClosestPointBeforeStart(p: Vec3, a: Vec3, b: Vec3)
    requires LengthSq(Sub(b, a)) == 0.0 || Dot(Sub(p, a), Sub(b, a)) <= 0.0
    ensures ClosestPointOnSegment(p, a, b) == a
  {
    var l := LengthSq(Sub(b, a));
    var d := Dot(Sub(p, a), Sub(b, a));
    LengthSqNonNegative(Sub(b, a));
    if l != 0.0 {
      NonPositiveQuotient(d, l);
      assert SegmentParam(p, a, b) == 0.0;
      assert PointAt(a, b, 0.0) == a;
    }
  }

  /** A point whose perpendicular foot lies at or beyond `b` yields `b`. */
  lemma ClosestPointBeyondEnd(p: Vec3, a: Vec3, b: Vec3)
    requires LengthSq(Sub(b, a)) != 0.0
    requires Dot(Sub(p, a), Sub(b, a)) >= LengthSq(Sub(b, a))
    ensures ClosestPointOnSegment(p, a, b) == b
  {
    var l := LengthSq(Sub(b, a));
    var d := Dot(Sub(p, a), Sub(b, a));
    LengthSqNonNegative(Sub(b, a));
    QuotientAtLeastOne(d, l);
    assert SegmentParam(p, a, b) == 1.0;
    assert PointAt(a, b, 1.0) == b;
  }

  /** A foot inside the segment is returned unclamped. */
  lemma ClosestPointInside(p: Vec3, a: Vec3, b: Vec3)
    requires LengthSq(Sub(b, a)) != 0.0
    requires 0.0 <= Dot(Sub(p, a), Sub(b, a)) <= LengthSq(Sub(b, a))
    ensures ClosestPointOnSegment(p, a, b)
         == PointAt(a, b, Dot(Sub(p, a), Sub(b, a)) / LengthSq(Sub(b, a)))
  {
    var l := LengthSq(Sub(b, a));
    var d := Dot(Sub(p, a), Sub(b, a));
    LengthSqNonNegative(Sub(b, a));
    QuotientInUnit(d, l);
  }

  lemma NonPositiveQuotient(d: real, l: real)
    requires l > 0.0 && d <= 0.0
    ensures d / l <= 0.0
  {
  }

  lemma QuotientAtLeastOne(d: real, l: real)
    requires l > 0.0 && d >= l
    ensures d / l >= 1.0
  {
  }

  lemma QuotientInUnit(d: real, l: real)
    requires l > 0.0 && 0.0 <= d <= l
    ensures 0.0 <= d / l <= 1.0
  {
  }

  /** |p - (a + s u)|^2 as a quadratic in s. */
  lemma DistSqAlong(p: Vec3, a: Vec3, u: Vec3, s: real)
    ensures DistSq(p, Add(a, Scale(u, s)))
         == LengthSq(Sub(p, a)) - 2.0 * s * Dot(Sub(p, a), u) + s * s * LengthSq(u)
  {
    var w := Sub(p, a);
    assert Sub(p, Add(a, Scale(u, s))) == Vec3(w.x - s * u.x, w.y - s * u.y, w.z - s * u.z);
    assert (w.x - s * u.x) * (w.x - s * u.x) == w.x * w.x - 2.0 * s * (w.x * u.x) + s * s * (u.x * u.x);
    assert (w.y - s * u.y) * (w.y - s * u.y) == w.y * w.y - 2.0 * s * (w.y * u.y) + s * s * (u.y * u.y);
    assert (w.z - s * u.z) * (w.z - s * u.z) == w.z * w.z - 2.0 * s * (w.z * u.z) + s * s * (u.z * u.z);
  }

  /** The clamped projection is the nearest point of the segment: no point of
      [a, b] is closer to p. */
  lemma ClosestPointIsNearest(p: Vec3, a: Vec3, b: Vec3, s: real)
    requires 0.0 <= s <= 1.0
    ensures DistSq(p, ClosestPointOnSegment(p, a, b)) <= DistSq(p, PointAt(a, b, s))
  {
    var u := Sub(b, a);
    var l := LengthSq(u);
    LengthSqNonNegative(u);
    if l != 0.0 {
      var d := Dot(Sub(p, a), u);
      var t := SegmentParam(p, a, b);
      DistSqAlong(p, a, u, s);
      DistSqAlong(p, a, u, t);
      QuadraticMinimum(LengthSq(Sub(p, a)), d, l, s);
    } else {
      // A zero-length segment: every point of it is at the same distance.
      var d := Dot(Sub(p, a), u);
      DistSqAlong(p, a, u, s);
      DistSqAlong(p, a, u, 0.0);
      NullDirectionIsOrthogonal(p, a, u);
    }
  }

  /** A direction of squared length zero is orthogonal to everything: were
      Dot(p - a, u) != 0, some point on the line through `a` along `u` would
      be at negative squared distance from p. */
  lemma NullDirectionIsOrthogonal(p: Vec3, a: Vec3, u: Vec3)
    requires LengthSq(u) == 0.0
    ensures Dot(Sub(p, a), u) == 0.0
  {
    var d := Dot(Sub(p, a), u);
    var w := LengthSq(Sub(p, a));
    if d != 0.0 {
      var s := (w + 1.0) / (2.0 * d);
      QuotientTimesDivisor(w + 1.0, 2.0 * d);
      DistSqAlong(p, a, u, s);
      LengthSqNonNegative(Sub(p, Add(a, Scale(u, s))));
      assert false;
    }
  }

  /** s |-> w - 2 s d + s^2 l over [0, 1] is smallest at the clamped vertex
      d / l. */
  lemma QuadraticMinimum(w: real, d: real, l: real, s: real)
    requires l > 0.0 && 0.0 <= s <= 1.0
    ensures var t := Clamp(d / l, 0.0, 1.0);
      w - 2.0 * t * d + t * t * l <= w - 2.0 * s * d + s * s * l
  {
    var q := d / l;
    if q < 0.0 {
      assert d < 0.0 by { NegativeNumerator(d, l); }
      MulNonNegative(s, -d);
      MulNonNegative(s, s * l);
      assert s * s * l == s * (s * l);
    } else if q > 1.0 {
      assert d > l by { QuotientAboveOne(d, l); }
      MulNonNegative(l, 1.0 - s);
      MulNonNegative(1.0 - s, 2.0 * d - l * (1.0 + s));
      assert (s * s * l - 2.0 * s * d) - (l - 2.0 * d)
          == (1.0 - s) * (2.0 * d - l * (1.0 + s));
    } else {
      assert l * q == d by { QuotientTimesDivisor(d, l); }
      SquareNonNegative(s - q);
      MulNonNegative(l, Sq(s - q));
      assert (s * s * l - 2.0 * s * d) - (q * q * l - 2.0 * q * d) == l * Sq(s - q);
    }
  }

  lemma NegativeNumerator(d: real, l: real)
    requires l > 0.0 && d / l < 0.0
    ensures d < 0.0
  {
  }

  lemma QuotientAboveOne(d: real, l: real)
    requires l > 0.0 && d / l > 1.0
    ensures d > l
  {
  }

  lemma QuotientTimesDivisor(d: real, l: real)
    requires l != 0.0
    ensures l * (d / l) == d
  {
  }

  /** The six snap candidates, in the order snapHitToWireframe lists them. */
  function Candidates(p: Vec3, t: Triangle): (cs: seq<Vec3>)
    ensures |cs| == 6 && cs[..3] == [t.a, t.b, t.c]
    ensures cs[3] == ClosestPointOnSegment(p, t.a, t.b) && cs[4] == ClosestPointOnSegment(p, t.b, t.c) &&
            cs[5] == ClosestPointOnSegment(p, t.c, t.a)
  {
    [ t.a, t.b, t.c,
      ClosestPointOnSegment(p, t.a, t.b),
      ClosestPointOnSegment(p, t.b, t.c),
      ClosestPointOnSegment(p, t.c, t.a) ]
  }

  /** k is the first index of ds holding its minimum. */
  ghost predicate IsFirstMin(ds: seq<real>, k: nat)
  {
    k < |ds| &&
    (forall j :: 0 <= j < |ds| ==> ds[k] <= ds[j]) &&
    (forall j :: 0 <= j < k ==> ds[j] > ds[k])
  }

  /** The index a left-to-right scan that replaces its best only on a strict
      `<` ends on. */
  function FirstMinIndex(ds: seq<real>): (k: nat)
    requires |ds| > 0
    ensures IsFirstMin(ds, k)
    decreases |ds|
  {
    if |ds| == 1 then 0
    else
      var k := FirstMinIndex(ds[..|ds| - 1]);
      if ds[|ds| - 1] < ds[k] then |ds| - 1 else k
  }

  /** At most one index is the first minimal one. */
  lemma FirstMinUnique(ds: seq<real>, k1: nat, k2: nat)
    requires IsFirstMin(ds, k1) && IsFirstMin(ds, k2)
    ensures k1 == k2
  {
    var d1, d2 := ds[k1], ds[k2];
  }

  /** Squared distance from p to each candidate. */
  function Distances(p: Vec3, cs: seq<Vec3>): (ds: seq<real>)
    ensures |ds| == |cs|
    ensures forall i :: 0 <= i < |cs| ==> ds[i] == DistSq(p, cs[i])
  {
    seq(|cs|, i requires 0 <= i < |cs| => DistSq(p, cs[i]))
  }

  /** The point snapHitToWireframe returns, as a function of the hit. */
  function SnappedPoint(hit: Hit): Vec3
  {
    match hit.face
    case None => hit.point
    case Some(t) =>
      var cs := Candidates(hit.point, t);
      cs[FirstMinIndex(Distances(hit.point, cs))]
  }

  /** snapHitToWireframe: the raw point without face data; otherwise the
      earliest of the six candidates at minimal squared distance from it. */
  method SnapHitToWireframe(hit: Hit) returns (best: Vec3)
    ensures best == SnappedPoint(hit)
  {
    match hit.face {
      case None =>
        best := hit.point;
      case Some(t) =>
        var cs := Candidates(hit.point, t);
        best := NearestCandidate(hit.point, cs);
    }
  }

  /** The `best` / `bestDistSq` scan of snapHitToWireframe over its list of
      candidates. */
  method NearestCandidate(p: Vec3, cs: seq<Vec3>) returns (best: Vec3)
    requires |cs| > 0
    ensures best == cs[FirstMinIndex(Distances(p, cs))]
    ensures forall j :: 0 <= j < |cs| ==> DistSq(p, best) <= DistSq(p, cs[j])
  {
    ghost var ds := Distances(p, cs);
    best := cs[0];
    var bestDistSq := DistSq(p, best);
    ghost var k: nat := 0;
    var i := 1;
    while i < |cs|
      invariant 1 <= i <= |cs|
      invariant IsFirstMin(ds[..i], k)
      invariant best == cs[k] && bestDistSq == ds[k]
    {
      var d2 := DistSq(p, cs[i]);
      if d2 < bestDistSq {
        bestDistSq := d2;
        best := cs[i];
        k := i;
      }
      i := i + 1;
    }
    assert ds[..i] == ds;
    FirstMinUnique(ds, k, FirstMinIndex(ds));
  }

  /** A snapped point is one of the candidates and no candidate is closer to
      the raw hit point. */
  lemma SnappedPointIsNearestCandidate(hit: Hit)
    requires hit.face.Some?
    ensures SnappedPoint(hit) in Candidates(hit.point, hit.face.value)
    ensures forall c :: c in Candidates(hit.point, hit.face.value) ==>
              DistSq(hit.point, SnappedPoint(hit)) <= DistSq(hit.point, c)
  {
    var p := hit.point;
    var cs := Candidates(p, hit.face.value);
    var ds := Distances(p, cs);
    var k := FirstMinIndex(ds);
    forall c | c in cs
      ensures DistSq(p, cs[k]) <= DistSq(p, c)
    {
      var j :| 0 <= j < |cs| && cs[j] == c;
      assert ds[k] <= ds[j];
    }
  }

  /** The snapped point is at least as close as the closest point on every
      edge, so no point of the triangle's boundary beats it. */
  lemma {:induction false} SnappedPointBeatsEdges(hit: Hit, s: real)
    requires hit.face.Some? && 0.0 <= s <= 1.0
    ensures var t := hit.face.value;
      DistSq(hit.point, SnappedPoint(hit)) <= DistSq(hit.point, PointAt(t.a, t.b, s)) &&
      DistSq(hit.point, SnappedPoint(hit)) <= DistSq(hit.point, PointAt(t.b, t.c, s)) &&
      DistSq(hit.point, SnappedPoint(hit)) <= DistSq(hit.point, PointAt(t.c, t.a, s))
  {
    var t := hit.face.value;
    var p := hit.point;
    var cs := Candidates(p, t);
    var ds := Distances(p, cs);
    var k := FirstMinIndex(ds);
    assert ds[k] <= ds[3] && ds[k] <= ds[4] && ds[k] <= ds[5];
    ClosestPointIsNearest(p, t.a, t.b, s);
    ClosestPointIsNearest(p, t.b, t.c, s);
    ClosestPointIsNearest(p, t.c, t.a, s);
  }
}
