/** Fan triangulation, as the FBX and the OBJ loader emit it. */
module Polygons {

  type Polygon = seq<nat>

  /** The triangles (p0, p_i, p_i+1) for i from 1 below k. */
  function FanUpTo(p: Polygon, k: nat): seq<nat>
    requires 1 <= k && (k < |p| || k == 1)
  {
    if k == 1 then [] else FanUpTo(p, k - 1) + [p[0], p[k - 1], p[k]]
  }

  function Fan(p: Polygon): seq<nat> {
    if |p| < 3 then [] else FanUpTo(p, |p| - 1)
  }

  /** Both loaders' loop: nothing at all for fewer than three corners. */
  method EmitFan(p: Polygon, indices: seq<nat>) returns (r: seq<nat>)
    requires p != []
    ensures r == indices + Fan(p)
  {
    r := indices;
    var i := 1;
    while i < |p| - 1
      invariant 1 <= i && (i <= |p| - 1 || i == 1)
      invariant r == indices + FanUpTo(p, i)
    {
      r := r + [p[0], p[i], p[i + 1]];
      i := i + 1;
    }
  }

  lemma {:induction false} FanSize(p: Polygon, k: nat)
    requires 1 <= k && (k < |p| || k == 1)
    ensures |FanUpTo(p, k)| == 3 * (k - 1)
    ensures forall v :: v in FanUpTo(p, k) ==> v in p
  {
    if k > 1 { FanSize(p, k - 1); }
  }

  /** Triangle j of the fan is the first corner with corners j + 1 and j + 2. */
  lemma {:induction false} FanUpToAt(p: Polygon, k: nat, j: nat)
    requires 1 <= k < |p| && j < k - 1
    ensures |FanUpTo(p, k)| == 3 * (k - 1)
    ensures FanUpTo(p, k)[3 * j] == p[0] && FanUpTo(p, k)[3 * j + 1] == p[j + 1] && FanUpTo(p, k)[3 * j + 2] == p[j + 2]
  {
    FanSize(p, k);
    FanSize(p, k - 1);
    if j < k - 2 { FanUpToAt(p, k - 1, j); }
  }

  lemma FanTriangles(p: Polygon)
    requires |p| >= 3
    ensures |Fan(p)| == 3 * (|p| - 2)
    ensures forall j :: 0 <= j < |p| - 2 ==>
      Fan(p)[3 * j] == p[0] && Fan(p)[3 * j + 1] == p[j + 1] && Fan(p)[3 * j + 2] == p[j + 2]
  {
    FanSize(p, |p| - 1);
    forall j | 0 <= j < |p| - 2
      ensures Fan(p)[3 * j] == p[0] && Fan(p)[3 * j + 1] == p[j + 1] && Fan(p)[3 * j + 2] == p[j + 2]
    {
      FanUpToAt(p, |p| - 1, j);
    }
  }

  // ----- Area

  datatype Vec3 = Vec3(x: real, y: real, z: real)

  function Add(a: Vec3, b: Vec3): Vec3 {
    Vec3(a.x + b.x, a.y + b.y, a.z + b.z)
  }

  function Sub(a: Vec3, b: Vec3): Vec3 {
    Vec3(a.x - b.x, a.y - b.y, a.z - b.z)
  }

  function Det(a: real, b: real, c: real, d: real): real {
    a * d - b * c
  }

  function Cross(a: Vec3, b: Vec3): Vec3 {
    Vec3(Det(a.y, a.z, b.y, b.z), Det(a.z, a.x, b.z, b.x), Det(a.x, a.y, b.x, b.y))
  }

  const ORIGIN: Vec3 := Vec3(0.0, 0.0, 0.0)

  /** Twice the signed area vector of a triangle list. */
  function TriangleArea(positions: nat -> Vec3, indices: seq<nat>): Vec3 {
    if |indices| < 3 then ORIGIN else
    var k := |indices| - 3;
    var a, b, c := positions(indices[k]), positions(indices[k + 1]), positions(indices[k + 2]);
    Add(TriangleArea(positions, indices[..k]), Cross(Sub(b, a), Sub(c, a)))
  }

  /** Twice the signed area vector of the open chain p0, ..., pk. */
  function ChainArea(positions: nat -> Vec3, p: Polygon, k: nat): Vec3
    requires k < |p|
  {
    if k == 0 then ORIGIN
    else Add(ChainArea(positions, p, k - 1), Cross(positions(p[k - 1]), positions(p[k])))
  }

  /** Twice the polygon's own area vector: its corners' cross products, once around. */
  function PolygonArea(positions: nat -> Vec3, p: Polygon): Vec3
    requires p != []
  {
    Add(ChainArea(positions, p, |p| - 1), Cross(positions(p[|p| - 1]), positions(p[0])))
  }

  lemma TriangleCross(a: Vec3, b: Vec3, c: Vec3)
    ensures Cross(Sub(b, a), Sub(c, a)) == Add(Add(Cross(a, b), Cross(b, c)), Cross(c, a))
  {
    Component(a.y, a.z, b.y, b.z, c.y, c.z);
    Component(a.z, a.x, b.z, b.x, c.z, c.x);
    Component(a.x, a.y, b.x, b.y, c.x, c.y);
  }

  lemma Component(au: real, av: real, bu: real, bv: real, cu: real, cv: real)
    ensures Det(bu - au, bv - av, cu - au, cv - av) == Det(au, av, bu, bv) + Det(bu, bv, cu, cv) + Det(cu, cv, au, av)
  {
    Expand(bu, au, cv, av);
    Expand(bv, av, cu, au);
  }

  lemma Expand(a: real, b: real, c: real, d: real)
    ensures (a - b) * (c - d) == a * c - a * d - b * c + b * d
  {
  }

  lemma Opposite(a: Vec3, b: Vec3)
    ensures Add(Cross(a, b), Cross(b, a)) == ORIGIN
  {
  }

  lemma AddLaws(a: Vec3, b: Vec3, c: Vec3)
    ensures Add(Add(a, b), c) == Add(a, Add(b, c)) && Add(a, b) == Add(b, a) && Add(a, ORIGIN) == a
  {
  }

  lemma FanStepArea(chain: Vec3, p0: Vec3, pi: Vec3, pj: Vec3)
    ensures Add(Add(chain, Cross(pi, p0)), Cross(Sub(pi, p0), Sub(pj, p0))) == Add(Add(chain, Cross(pi, pj)), Cross(pj, p0))
  {
    TriangleCross(p0, pi, pj);
    Opposite(pi, p0);
  }

  lemma {:induction false} FanAreaUpTo(positions: nat -> Vec3, p: Polygon, k: nat)
    requires 1 <= k < |p|
    ensures TriangleArea(positions, FanUpTo(p, k)) == Add(ChainArea(positions, p, k), Cross(positions(p[k]), positions(p[0])))
  {
    FanSize(p, k);
    if k == 1 {
      Opposite(positions(p[0]), positions(p[1]));
      AddLaws(ORIGIN, Cross(positions(p[0]), positions(p[1])), Cross(positions(p[1]), positions(p[0])));
      assert ChainArea(positions, p, 1) == Add(ORIGIN, Cross(positions(p[0]), positions(p[1])));
    } else {
      FanAreaUpTo(positions, p, k - 1);
      FanSize(p, k - 1);
      var fan := FanUpTo(p, k);
      assert fan[..|fan| - 3] == FanUpTo(p, k - 1);
      FanStepArea(ChainArea(positions, p, k - 1), positions(p[0]), positions(p[k - 1]), positions(p[k]));
    }
  }

  /** The fan covers the polygon exactly: signed areas agree for every corner count from three. */
  lemma FanPreservesArea(positions: nat -> Vec3, p: Polygon)
    requires |p| >= 3
    ensures |Fan(p)| == 3 * (|p| - 2)
    ensures TriangleArea(positions, Fan(p)) == PolygonArea(positions, p)
  {
    FanSize(p, |p| - 1);
    FanAreaUpTo(positions, p, |p| - 1);
  }
}
