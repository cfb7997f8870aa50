/** Ray–triangle intersection (Möller–Trumbore, division form) and the
    nearest-corner snap of `libviewer/intersection.hpp`, over exact reals. */
module Intersection {

  datatype Vec3 = Vec3(x: real, y: real, z: real)

  function Add(a: Vec3, b: Vec3): Vec3 { Vec3(a.x + b.x, a.y + b.y, a.z + b.z) }

  function Sub(a: Vec3, b: Vec3): Vec3 { Vec3(a.x - b.x, a.y - b.y, a.z - b.z) }

  function Scale(k: real, a: Vec3): Vec3 { Vec3(k * a.x, k * a.y, k * a.z) }

  function Dot(a: Vec3, b: Vec3): real { a.x * b.x + a.y * b.y + a.z * b.z }

  function Cross(a: Vec3, b: Vec3): Vec3 {
    Vec3(a.y * b.z - a.z * b.y, a.z * b.x - a.x * b.z, a.x * b.y - a.y * b.x)
  }

  /** Squared Euclidean distance (glm's `distance2`). */
  function Distance2(a: Vec3, b: Vec3): real { Dot(Sub(a, b), Sub(a, b)) }

  datatype Ray = Ray(origin: Vec3, direction: Vec3)

  datatype Triangle = Triangle(v0: Vec3, v1: Vec3, v2: Vec3) {
    /** `vertex[k]` */
    function Vertex(k: nat): Vec3
      requires k < 3
    {
      if k == 0 then v0 else if k == 1 then v1 else v2
    }

    function Edge1(): Vec3 { Sub(v1, v0) }

    function Edge2(): Vec3 { Sub(v2, v0) }
  }

  /** What `intersect` leaves in its out-parameter `uvt`: the computed
      (u, v, t), or the infinities and NaNs that `1.0f / 0` produces when the
      determinant is zero. */
  datatype Uvt = Uvt(u: real, v: real, t: real) | NonFinite

  /** `dot(edge1, cross(direction, edge2))`, the triple product of the two
      edges and the ray direction. */
  function Determinant(r: Ray, tri: Triangle): real {
    Dot(tri.Edge1(), Cross(r.direction, tri.Edge2()))
  }

  /** The point of the triangle's plane with barycentric coordinates (u, v). */
  function PlanePoint(tri: Triangle, u: real, v: real): Vec3 {
    Add(tri.v0, Add(Scale(u, tri.Edge1()), Scale(v, tri.Edge2())))
  }

  /** The point of the ray's line at parameter t. */
  function RayPoint(r: Ray, t: real): Vec3 {
    Add(r.origin, Scale(t, r.direction))
  }

  /** (u, v, t) lies in the closed triangle and strictly in front of the origin. */
  predicate InTriangleAhead(u: real, v: real, t: real) {
    0.0 <= u <= 1.0 && v >= 0.0 && u + v <= 1.0 && t > 0.0
  }

  /** `intersect(r, t, uvt)`: returns the hit flag together with the value
      written to `uvt`. The out-parameter is written on every path, hit or not. */
  function Intersect(r: Ray, tri: Triangle): (res: (bool, Uvt))
    ensures Determinant(r, tri) == 0.0 <==> res.1 == NonFinite
    ensures res.0 ==> Determinant(r, tri) != 0.0
    ensures res.0 <==> res.1.Uvt? && InTriangleAhead(res.1.u, res.1.v, res.1.t)
  {
    var edge1 := tri.Edge1();
    var edge2 := tri.Edge2();
    var p := Cross(r.direction, edge2);
    var determinant := Dot(edge1, p);
    if determinant == 0.0 then
      (false, NonFinite)
    else
      var inverseDeterminant := 1.0 / determinant;
      var s := Sub(r.origin, tri.v0);
      var u := Dot(s, p) * inverseDeterminant;
      var q := Cross(s, edge1);
      var v := Dot(r.direction, q) * inverseDeterminant;
      var t := Dot(edge2, q) * inverseDeterminant;
      (InTriangleAhead(u, v, t), Uvt(u, v, t))
  }

  /** Cramer's rule for the 3x3 system [edge1 edge2 -direction](u, v, t) = s,
      multiplied through by the determinant, one coordinate at a time. */
  lemma CramerX(e1: Vec3, e2: Vec3, d: Vec3, s: Vec3)
    ensures var p := Cross(d, e2); var q := Cross(s, e1);
      Dot(e1, p) * s.x == Dot(s, p) * e1.x + Dot(d, q) * e2.x - Dot(e2, q) * d.x
  {
  }

  lemma CramerY(e1: Vec3, e2: Vec3, d: Vec3, s: Vec3)
    ensures var p := Cross(d, e2); var q := Cross(s, e1);
      Dot(e1, p) * s.y == Dot(s, p) * e1.y + Dot(d, q) * e2.y - Dot(e2, q) * d.y
  {
  }

  lemma CramerZ(e1: Vec3, e2: Vec3, d: Vec3, s: Vec3)
    ensures var p := Cross(d, e2); var q := Cross(s, e1);
      Dot(e1, p) * s.z == Dot(s, p) * e1.z + Dot(d, q) * e2.z - Dot(e2, q) * d.z
  {
  }

  /** u·e1 + v·e2 − t·d */
  function Combine(e1: Vec3, e2: Vec3, d: Vec3, u: real, v: real, t: real): Vec3 {
    Vec3(u * e1.x + v * e2.x - t * d.x, u * e1.y + v * e2.y - t * d.y, u * e1.z + v * e2.z - t * d.z)
  }

  /** For s = u·e1 + v·e2 − t·d, each numerator of the division form is the
      determinant times the corresponding coordinate. */
  lemma NumeratorU(e1: Vec3, e2: Vec3, d: Vec3, u: real, v: real, t: real)
    ensures Dot(Combine(e1, e2, d, u, v, t), Cross(d, e2)) == u * Dot(e1, Cross(d, e2))
  {
    DotOfCombine(e1, e2, d, u, v, t, Cross(d, e2));
    TripleRepeated(d, e2);
    TripleCyclic(e2, d, e2);
  }

  lemma NumeratorV(e1: Vec3, e2: Vec3, d: Vec3, u: real, v: real, t: real)
    ensures Dot(d, Cross(Combine(e1, e2, d, u, v, t), e1)) == v * Dot(e1, Cross(d, e2))
  {
    CrossOfCombine(e1, e2, d, u, v, t);
    DotOfDifference(d, Cross(e2, e1), Cross(d, e1), v, t);
    TripleRepeated(d, e1);
    TripleCyclic(e1, d, e2);
  }

  lemma NumeratorT(e1: Vec3, e2: Vec3, d: Vec3, u: real, v: real, t: real)
    ensures Dot(e2, Cross(Combine(e1, e2, d, u, v, t), e1)) == t * Dot(e1, Cross(d, e2))
  {
    var a, b := Cross(e2, e1), Cross(d, e1);
    var w := Vec3(v * a.x - t * b.x, v * a.y - t * b.y, v * a.z - t * b.z);
    CrossOfCombine(e1, e2, d, u, v, t);
    DotOfDifference(e2, a, b, v, t);
    TripleRepeated(e2, e1);
    TripleSwap(e2, d, e1);
  }

  /** (u·e1 + v·e2 − t·d) × e1 = v·(e2 × e1) − t·(d × e1) */
  lemma CrossOfCombine(e1: Vec3, e2: Vec3, d: Vec3, u: real, v: real, t: real)
    ensures var a, b := Cross(e2, e1), Cross(d, e1);
      Cross(Combine(e1, e2, d, u, v, t), e1) == Vec3(v * a.x - t * b.x, v * a.y - t * b.y, v * a.z - t * b.z)
  {
    var c := Combine(e1, e2, d, u, v, t);
    CrossOfCombineX(c, e1, e2, d, u, v, t);
    CrossOfCombineY(c, e1, e2, d, u, v, t);
    CrossOfCombineZ(c, e1, e2, d, u, v, t);
  }

  lemma CrossOfCombineX(c: Vec3, e1: Vec3, e2: Vec3, d: Vec3, u: real, v: real, t: real)
    requires c == Combine(e1, e2, d, u, v, t)
    ensures Cross(c, e1).x == v * Cross(e2, e1).x - t * Cross(d, e1).x
  {
  }

  lemma CrossOfCombineY(c: Vec3, e1: Vec3, e2: Vec3, d: Vec3, u: real, v: real, t: real)
    requires c == Combine(e1, e2, d, u, v, t)
    ensures Cross(c, e1).y == v * Cross(e2, e1).y - t * Cross(d, e1).y
  {
  }

  lemma CrossOfCombineZ(c: Vec3, e1: Vec3, e2: Vec3, d: Vec3, u: real, v: real, t: real)
    requires c == Combine(e1, e2, d, u, v, t)
    ensures Cross(c, e1).z == v * Cross(e2, e1).z - t * Cross(d, e1).z
  {
  }

  lemma DotOfDifference(c: Vec3, a: Vec3, b: Vec3, v: real, t: real)
    ensures Dot(c, Vec3(v * a.x - t * b.x, v * a.y - t * b.y, v * a.z - t * b.z)) == v * Dot(c, a) - t * Dot(c, b)
  {
  }

  /** (u·e1 + v·e2 − t·d)·p = u·(e1·p) + v·(e2·p) − t·(d·p) */
  lemma DotOfCombine(e1: Vec3, e2: Vec3, d: Vec3, u: real, v: real, t: real, p: Vec3)
    ensures Dot(Combine(e1, e2, d, u, v, t), p) == u * Dot(e1, p) + v * Dot(e2, p) - t * Dot(d, p)
  {
  }

  lemma TripleCyclic(a: Vec3, b: Vec3, c: Vec3)
    ensures Dot(a, Cross(b, c)) == Dot(b, Cross(c, a))
  {
  }

  lemma TripleRepeated(a: Vec3, b: Vec3)
    ensures Dot(a, Cross(a, b)) == 0.0
  {
  }

  lemma TripleSwap(a: Vec3, b: Vec3, c: Vec3)
    ensures Dot(a, Cross(b, c)) == -Dot(c, Cross(b, a))
  {
  }

  /** Cancelling a non-zero factor. */
  lemma CancelFactor(a: real, b: real, k: real)
    requires k != 0.0 && a * k == b * k
    ensures a == b
  {
    assert (a - b) * k == 0.0;
  }

  /** With a non-zero determinant `intersect` writes finite values, and
      multiplying them back by the determinant gives the three numerators. */
  lemma IntersectScaled(r: Ray, tri: Triangle)
    requires Determinant(r, tri) != 0.0
    ensures var w := Intersect(r, tri).1; var det := Determinant(r, tri);
      var s := Sub(r.origin, tri.v0); var q := Cross(s, tri.Edge1());
      w.Uvt? &&
      w.u * det == Dot(s, Cross(r.direction, tri.Edge2())) &&
      w.v * det == Dot(r.direction, q) &&
      w.t * det == Dot(tri.Edge2(), q)
  {
    var det := Determinant(r, tri);
    assert (1.0 / det) * det == 1.0;
  }

  /** Cramer's rule: with e1·(d × e2) non-zero, the coordinates given by the
      division form solve s = u·e1 + v·e2 − t·d. */
  lemma CramerSolve(e1: Vec3, e2: Vec3, d: Vec3, s: Vec3, u: real, v: real, t: real)
    requires Dot(e1, Cross(d, e2)) != 0.0
    requires u * Dot(e1, Cross(d, e2)) == Dot(s, Cross(d, e2))
    requires v * Dot(e1, Cross(d, e2)) == Dot(d, Cross(s, e1))
    requires t * Dot(e1, Cross(d, e2)) == Dot(e2, Cross(s, e1))
    ensures s == Combine(e1, e2, d, u, v, t)
  {
    CramerSolveX(e1, e2, d, s, u, v, t);
    CramerSolveY(e1, e2, d, s, u, v, t);
    CramerSolveZ(e1, e2, d, s, u, v, t);
  }

  lemma CramerSolveX(e1: Vec3, e2: Vec3, d: Vec3, s: Vec3, u: real, v: real, t: real)
    requires Dot(e1, Cross(d, e2)) != 0.0
    requires u * Dot(e1, Cross(d, e2)) == Dot(s, Cross(d, e2))
    requires v * Dot(e1, Cross(d, e2)) == Dot(d, Cross(s, e1))
    requires t * Dot(e1, Cross(d, e2)) == Dot(e2, Cross(s, e1))
    ensures s.x == u * e1.x + v * e2.x - t * d.x
  {
    var p, q := Cross(d, e2), Cross(s, e1);
    CramerX(e1, e2, d, s);
    SolveCoordinate(Dot(e1, p), s.x, Dot(s, p), Dot(d, q), Dot(e2, q), u, v, t, e1.x, e2.x, d.x);
  }

  lemma CramerSolveY(e1: Vec3, e2: Vec3, d: Vec3, s: Vec3, u: real, v: real, t: real)
    requires Dot(e1, Cross(d, e2)) != 0.0
    requires u * Dot(e1, Cross(d, e2)) == Dot(s, Cross(d, e2))
    requires v * Dot(e1, Cross(d, e2)) == Dot(d, Cross(s, e1))
    requires t * Dot(e1, Cross(d, e2)) == Dot(e2, Cross(s, e1))
    ensures s.y == u * e1.y + v * e2.y - t * d.y
  {
    var p, q := Cross(d, e2), Cross(s, e1);
    CramerY(e1, e2, d, s);
    SolveCoordinate(Dot(e1, p), s.y, Dot(s, p), Dot(d, q), Dot(e2, q), u, v, t, e1.y, e2.y, d.y);
  }

  lemma CramerSolveZ(e1: Vec3, e2: Vec3, d: Vec3, s: Vec3, u: real, v: real, t: real)
    requires Dot(e1, Cross(d, e2)) != 0.0
    requires u * Dot(e1, Cross(d, e2)) == Dot(s, Cross(d, e2))
    requires v * Dot(e1, Cross(d, e2)) == Dot(d, Cross(s, e1))
    requires t * Dot(e1, Cross(d, e2)) == Dot(e2, Cross(s, e1))
    ensures s.z == u * e1.z + v * e2.z - t * d.z
  {
    var p, q := Cross(d, e2), Cross(s, e1);
    CramerZ(e1, e2, d, s);
    SolveCoordinate(Dot(e1, p), s.z, Dot(s, p), Dot(d, q), Dot(e2, q), u, v, t, e1.z, e2.z, d.z);
  }

  /** One coordinate of Cramer's rule: det·x = U·a + V·b − T·c with
      U = u·det, V = v·det, T = t·det and det non-zero gives x = u·a + v·b − t·c. */
  lemma SolveCoordinate(det: real, x: real, U: real, V: real, T: real,
                        u: real, v: real, t: real, a: real, b: real, c: real)
    requires det != 0.0
    requires det * x == U * a + V * b - T * c
    requires U == u * det && V == v * det && T == t * det
    ensures x == u * a + v * b - t * c
  {
    assert U * a + V * b - T * c == (u * a + v * b - t * c) * det;
    CancelFactor(x, u * a + v * b - t * c, det);
  }

  /** With a non-zero determinant the written (u, v, t) solves the ray/plane
      system: origin + t·direction = v0 + u·edge1 + v·edge2. */
  lemma {:induction false} IntersectSolves(r: Ray, tri: Triangle)
    requires Determinant(r, tri) != 0.0
    ensures Intersect(r, tri).1.Uvt?
    ensures var w := Intersect(r, tri).1; RayPoint(r, w.t) == PlanePoint(tri, w.u, w.v)
  {
    IntersectScaled(r, tri);
    var w := Intersect(r, tri).1;
    var s := Sub(r.origin, tri.v0);
    CramerSolve(tri.Edge1(), tri.Edge2(), r.direction, s, w.u, w.v, w.t);
  }

  /** With a non-zero determinant the system has no other solution: any
      (u, v, t) that puts a ray point on the triangle's plane is the one
      `intersect` writes. */
  lemma {:induction false} IntersectUnique(r: Ray, tri: Triangle, u: real, v: real, t: real)
    requires Determinant(r, tri) != 0.0
    requires RayPoint(r, t) == PlanePoint(tri, u, v)
    ensures Intersect(r, tri).1 == Uvt(u, v, t)
  {
    var e1, e2, d := tri.Edge1(), tri.Edge2(), r.direction;
    var det := Determinant(r, tri);
    IntersectScaled(r, tri);
    var w := Intersect(r, tri).1;
    assert Sub(r.origin, tri.v0) == Combine(e1, e2, d, u, v, t);
    NumeratorU(e1, e2, d, u, v, t);
    NumeratorV(e1, e2, d, u, v, t);
    NumeratorT(e1, e2, d, u, v, t);
    CancelFactor(w.u, u, det);
    CancelFactor(w.v, v, det);
    CancelFactor(w.t, t, det);
  }

  /** `intersect` hits exactly when the ray is not parallel to the triangle's
      plane and meets the closed triangle strictly in front of its origin. */
  lemma HitIffRayMeetsTriangle(r: Ray, tri: Triangle)
    ensures Intersect(r, tri).0 <==>
      Determinant(r, tri) != 0.0 &&
      exists u, v, t :: InTriangleAhead(u, v, t) && RayPoint(r, t) == PlanePoint(tri, u, v)
  {
    if Determinant(r, tri) != 0.0 {
      IntersectSolves(r, tri);
      var w := Intersect(r, tri).1;
      if Intersect(r, tri).0 {
        assert InTriangleAhead(w.u, w.v, w.t) && RayPoint(r, w.t) == PlanePoint(tri, w.u, w.v);
      }
      if exists u, v, t :: InTriangleAhead(u, v, t) && RayPoint(r, t) == PlanePoint(tri, u, v) {
        var u, v, t :| InTriangleAhead(u, v, t) && RayPoint(r, t) == PlanePoint(tri, u, v);
        IntersectUnique(r, tri, u, v, t);
      }
    }
  }

  /** `voronoi_snap(t, x)`: the corner nearest to x, the lowest such index on
      ties. */
  function VoronoiSnap(tri: Triangle, x: Vec3): (k: nat)
    ensures k < 3
    ensures forall i :: 0 <= i < 3 ==> Distance2(x, tri.Vertex(k)) <= Distance2(x, tri.Vertex(i))
    ensures forall i :: 0 <= i < k ==> Distance2(x, tri.Vertex(i)) > Distance2(x, tri.Vertex(k))
  {
    var a := Distance2(x, tri.v0);
    var b := Distance2(x, tri.v1);
    var c := Distance2(x, tri.v2);
    if a <= b then (if a <= c then 0 else 2) else (if b <= c then 1 else 2)
  }

  /** The snap's two properties determine it: any corner that is nearest and
      has no equally near corner below it is the one returned. */
  lemma VoronoiSnapUnique(tri: Triangle, x: Vec3, k: nat)
    requires k < 3
    requires forall i :: 0 <= i < 3 ==> Distance2(x, tri.Vertex(k)) <= Distance2(x, tri.Vertex(i))
    requires forall i :: 0 <= i < k ==> Distance2(x, tri.Vertex(i)) > Distance2(x, tri.Vertex(k))
    ensures VoronoiSnap(tri, x) == k
  {
    var n := VoronoiSnap(tri, x);
    assert Distance2(x, tri.Vertex(n)) <= Distance2(x, tri.Vertex(k));
    assert Distance2(x, tri.Vertex(k)) <= Distance2(x, tri.Vertex(n));
  }
}
