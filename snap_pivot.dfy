/**
 The geometry of the pivot-snapping script: sorting a curve's control points onto
 the six faces of their bounding box (`classify_faces`), the right-hand cross
 product and the face normal built from it (`cross`, `normalize`,
 `compute_normal`), first-occurrence deduplication of points by rounded
 coordinates (`deduplicate`), and the three cube normals (`get_cube_normal`).
 Floating point is modelled by reals; `math.sqrt` and `round(_, precision)` are
 parameters.
 */
module SnapPivot {
  import opened Wrappers
  import opened Sequences
  import opened Reals

  /** A point or vector, the three-element coordinate list of the script. */
  datatype Vec3 = Vec3(x: real, y: real, z: real)

  datatype Axis = X | Y | Z

  /** The dictionary `classify_faces` returns: one point list per face label. */
  datatype Faces = Faces(top: seq<Vec3>, bottom: seq<Vec3>, right: seq<Vec3>,
                         left: seq<Vec3>, front: seq<Vec3>, back: seq<Vec3>)

  /** The exceptions these functions can raise. */
  datatype PyError =
    | ValueError  // max() or min() of no points
    | TypeError   // compute_normal called with fewer than three points

  /** The up, side and front vectors of `get_cube_normal`. */
  datatype CubeNormals = CubeNormals(up: Vec3, side: Vec3, front: Vec3)

  const Zero := Vec3(0.0, 0.0, 0.0)

  function Coord(v: Vec3, a: Axis): real
  {
    match a
    case X => v.x
    case Y => v.y
    case Z => v.z
  }

  function Coords(vs: seq<Vec3>, a: Axis): seq<real>
  {
    seq(|vs|, i requires 0 <= i < |vs| => Coord(vs[i], a))
  }

  /** Python's `max` of a non-empty sequence. */
  function Max(s: seq<real>): (m: real)
    requires |s| > 0
    ensures m in s
    ensures forall i :: 0 <= i < |s| ==> s[i] <= m
  {
    if |s| == 1 then s[0]
    else
      var rest := Max(s[1..]);
      assert forall i :: 1 <= i < |s| ==> s[i] == s[1..][i - 1];
      if rest < s[0] then s[0] else rest
  }

  /** Python's `min` of a non-empty sequence. */
  function Min(s: seq<real>): (m: real)
    requires |s| > 0
    ensures m in s
    ensures forall i :: 0 <= i < |s| ==> m <= s[i]
  {
    if |s| == 1 then s[0]
    else
      var rest := Min(s[1..]);
      assert forall i :: 1 <= i < |s| ==> s[i] == s[1..][i - 1];
      if s[0] < rest then s[0] else rest
  }

  /** The `close` helper of `classify_faces`. */
  predicate Close(a: real, b: real, tolerance: real)
  {
    Abs(a - b) <= tolerance
  }

  function OnPlane(a: Axis, extremum: real, tolerance: real): Vec3 -> bool
  {
    v => Close(Coord(v, a), extremum, tolerance)
  }

  /**
   `face` is the face of `vs` on the plane where axis `a` equals `extremum`:
   the points within `tolerance` of that plane, each as often as in `vs`, in
   the order of `vs`.
   */
  ghost predicate IsFace(vs: seq<Vec3>, face: seq<Vec3>, a: Axis, extremum: real, tolerance: real)
  {
    && IsSubseq(face, vs)
    && (forall v :: v in face <==> v in vs && Close(Coord(v, a), extremum, tolerance))
    && (forall v :: multiset(face)[v] == if Close(Coord(v, a), extremum, tolerance) then multiset(vs)[v] else 0)
  }

  /** One list comprehension of `classify_faces`. */
  function Face(vs: seq<Vec3>, a: Axis, extremum: real, tolerance: real): (face: seq<Vec3>)
    ensures IsFace(vs, face, a, extremum, tolerance)
  {
    FilterIsSubseq(vs, OnPlane(a, extremum, tolerance));
    FilterCounts(vs, OnPlane(a, extremum, tolerance));
    Filter(vs, OnPlane(a, extremum, tolerance))
  }

  /**
   `classify_faces`: top and bottom are the points at the largest and smallest
   y, right and left at the largest and smallest x, front and back at the
   largest and smallest z, each within `tolerance`. No points: `max` raises.
   */
  function ClassifyFaces(vertices: seq<Vec3>, tolerance: real): (r: Result<Faces, PyError>)
    ensures r.Err? <==> |vertices| == 0
    ensures r.Err? ==> r.error == ValueError
    ensures r.Ok? ==>
              && IsFace(vertices, r.value.top, Y, Max(Coords(vertices, Y)), tolerance)
              && IsFace(vertices, r.value.bottom, Y, Min(Coords(vertices, Y)), tolerance)
              && IsFace(vertices, r.value.right, X, Max(Coords(vertices, X)), tolerance)
              && IsFace(vertices, r.value.left, X, Min(Coords(vertices, X)), tolerance)
              && IsFace(vertices, r.value.front, Z, Max(Coords(vertices, Z)), tolerance)
              && IsFace(vertices, r.value.back, Z, Min(Coords(vertices, Z)), tolerance)
  {
    if |vertices| == 0 then Err(ValueError)
    else
      var maxY, minY := Max(Coords(vertices, Y)), Min(Coords(vertices, Y));
      var maxX, minX := Max(Coords(vertices, X)), Min(Coords(vertices, X));
      var maxZ, minZ := Max(Coords(vertices, Z)), Min(Coords(vertices, Z));
      Ok(Faces(top := Face(vertices, Y, maxY, tolerance),
               bottom := Face(vertices, Y, minY, tolerance),
               right := Face(vertices, X, maxX, tolerance),
               left := Face(vertices, X, minX, tolerance),
               front := Face(vertices, Z, maxZ, tolerance),
               back := Face(vertices, Z, minZ, tolerance)))
  }

  /** A face at a coordinate some point has is non-empty once the tolerance is not negative. */
  lemma FaceAtPointNonEmpty(vs: seq<Vec3>, a: Axis, extremum: real, tolerance: real)
    requires extremum in Coords(vs, a) && tolerance >= 0.0
    ensures |Face(vs, a, extremum, tolerance)| > 0
  {
    var i :| 0 <= i < |vs| && Coords(vs, a)[i] == extremum;
    var v := vs[i];
    assert Close(Coord(v, a), extremum, tolerance);
    assert v in Face(vs, a, extremum, tolerance);
  }

  /** Every face of a non-empty point list holds at least the point that attains its extremum. */
  lemma FacesNonEmpty(vertices: seq<Vec3>, tolerance: real)
    requires |vertices| > 0 && tolerance >= 0.0
    ensures ClassifyFaces(vertices, tolerance).Ok?
    ensures var f := ClassifyFaces(vertices, tolerance).value;
            |f.top| > 0 && |f.bottom| > 0 && |f.right| > 0 && |f.left| > 0 && |f.front| > 0 && |f.back| > 0
  {
    FaceAtPointNonEmpty(vertices, Y, Max(Coords(vertices, Y)), tolerance);
    FaceAtPointNonEmpty(vertices, Y, Min(Coords(vertices, Y)), tolerance);
    FaceAtPointNonEmpty(vertices, X, Max(Coords(vertices, X)), tolerance);
    FaceAtPointNonEmpty(vertices, X, Min(Coords(vertices, X)), tolerance);
    FaceAtPointNonEmpty(vertices, Z, Max(Coords(vertices, Z)), tolerance);
    FaceAtPointNonEmpty(vertices, Z, Min(Coords(vertices, Z)), tolerance);
  }

  function Sub(a: Vec3, b: Vec3): Vec3
  {
    Vec3(a.x - b.x, a.y - b.y, a.z - b.z)
  }

  function Scale(c: real, v: Vec3): Vec3
  {
    Vec3(c * v.x, c * v.y, c * v.z)
  }

  function Dot(a: Vec3, b: Vec3): real
  {
    a.x * b.x + a.y * b.y + a.z * b.z
  }

  /** `x**2`. */
  function Square(a: real): real
  {
    a * a
  }

  /** `sum(x**2 for x in v)`. */
  function SquaredLength(v: Vec3): real
  {
    Square(v.x) + Square(v.y) + Square(v.z)
  }

  /** `cross`: the right-hand cross product, orthogonal to both of its factors. */
  function Cross(u: Vec3, v: Vec3): (r: Vec3)
    ensures Dot(r, u) == 0.0 && Dot(r, v) == 0.0
  {
    Vec3(u.y * v.z - u.z * v.y,
         u.z * v.x - u.x * v.z,
         u.x * v.y - u.y * v.x)
  }

  /** The cross product of a vector with itself is zero. */
  lemma CrossWithItself(u: Vec3)
    ensures Cross(u, u) == Zero
  {
  }

  /** The cross product changes sign when its factors are swapped. */
  lemma CrossAntiCommutes(u: Vec3, v: Vec3)
    ensures Cross(v, u) == Scale(-1.0, Cross(u, v))
  {
  }

  /** The cross product of parallel vectors is zero. */
  lemma CrossOfParallel(u: Vec3, t: real)
    ensures Cross(u, Scale(t, u)) == Zero
  {
  }

  lemma SquareSign(a: real)
    ensures Square(a) >= 0.0
    ensures a != 0.0 ==> Square(a) > 0.0
  {
    if a > 0.0 {
      calc {
        Square(a);
        a * a;
      >
        0.0;
      }
    } else if a < 0.0 {
      calc {
        Square(a);
        (-a) * (-a);
      >
        0.0;
      }
    }
  }

  /** A squared length is never negative, and is zero only for the zero vector. */
  lemma SquaredLengthZero(v: Vec3)
    ensures SquaredLength(v) >= 0.0
    ensures SquaredLength(v) == 0.0 <==> v == Zero
  {
    SquareSign(v.x);
    SquareSign(v.y);
    SquareSign(v.z);
  }

  /** `sqrt` returns the non-negative square root of `a`, as `math.sqrt` does for `a >= 0`. */
  predicate IsSqrtAt(sqrt: real -> real, a: real)
  {
    sqrt(a) >= 0.0 && Square(sqrt(a)) == a
  }

  /**
   `normalize`: divide each coordinate by the length `sqrt(x² + y² + z²)` when
   it is positive, else return the zero vector. The result is a non-negative
   multiple of `v`; with a true square root it is zero exactly for the zero
   vector and has length one otherwise.
   */
  function Normalize(v: Vec3, sqrt: real -> real): (r: Vec3)
    ensures exists c :: 0.0 <= c && r == Scale(c, v)
    ensures !(sqrt(SquaredLength(v)) > 0.0) ==> r == Zero
    ensures IsSqrtAt(sqrt, SquaredLength(v)) ==> (r == Zero <==> v == Zero)
    ensures IsSqrtAt(sqrt, SquaredLength(v)) && v != Zero ==> SquaredLength(r) == 1.0
  {
    var length := sqrt(SquaredLength(v));
    if length > 0.0 then
      DivideByLength(v, length);
      Vec3(v.x / length, v.y / length, v.z / length)
    else
      ZeroLength(v, length);
      assert Zero == Scale(0.0, v);
      Zero
  }

  /**
   Dividing by a positive length scales by its inverse, gives zero only for the
   zero vector, and gives length one when it is the vector's true length.
   */
  lemma DivideByLength(v: Vec3, length: real)
    requires length > 0.0
    ensures Vec3(v.x / length, v.y / length, v.z / length) == Scale(1.0 / length, v)
    ensures 1.0 / length > 0.0
    ensures Scale(1.0 / length, v) == Zero <==> v == Zero
    ensures Square(length) == SquaredLength(v) ==> SquaredLength(Scale(1.0 / length, v)) == 1.0
  {
    var c := 1.0 / length;
    DivisionIsScaling(v, length);
    if v != Zero {
      ScaleNonZero(c, v);
    }
    if Square(length) == SquaredLength(v) {
      calc {
        SquaredLength(Scale(c, v));
        { ScaleSquaredLength(c, v); }
        Square(c) * SquaredLength(v);
        { InverseSquare(c, length, SquaredLength(v)); }
        1.0;
      }
    }
  }

  lemma DivisionIsScaling(v: Vec3, length: real)
    requires length > 0.0
    ensures Vec3(v.x / length, v.y / length, v.z / length) == Scale(1.0 / length, v)
    ensures 1.0 / length > 0.0 && (1.0 / length) * length == 1.0
  {
  }

  lemma ScaleNonZero(c: real, v: Vec3)
    requires c != 0.0 && v != Zero
    ensures Scale(c, v) != Zero
  {
    if v.x != 0.0 {
      assert c * v.x != 0.0;
    } else if v.y != 0.0 {
      assert c * v.y != 0.0;
    } else {
      assert c * v.z != 0.0;
    }
  }

  lemma ScaleSquaredLength(c: real, v: Vec3)
    ensures SquaredLength(Scale(c, v)) == Square(c) * SquaredLength(v)
  {
    assert Square(c * v.x) == Square(c) * Square(v.x);
    assert Square(c * v.y) == Square(c) * Square(v.y);
    assert Square(c * v.z) == Square(c) * Square(v.z);
  }

  lemma InverseSquare(c: real, length: real, s: real)
    requires c * length == 1.0 && Square(length) == s
    ensures Square(c) * s == 1.0
  {
    calc {
      Square(c) * s;
      c * c * (length * length);
      (c * length) * (c * length);
      1.0;
    }
  }

  /** A square root that is not positive belongs to the zero vector. */
  lemma ZeroLength(v: Vec3, length: real)
    requires !(length > 0.0)
    ensures length >= 0.0 && Square(length) == SquaredLength(v) ==> v == Zero
  {
    SquaredLengthZero(v);
    if length >= 0.0 {
      assert length == 0.0;
      assert Square(length) == 0.0;
    }
  }

  /** The cross product of the two edges from `p0`. */
  function EdgeCross(p0: Vec3, p1: Vec3, p2: Vec3): Vec3
  {
    Cross(Sub(p1, p0), Sub(p2, p0))
  }

  /**
   `compute_normal`: the normalized cross product of the edges `p1 - p0` and
   `p2 - p0`. It is orthogonal to both edges; with a true square root it has
   length one unless the edges are parallel, in which case it is zero.
   */
  function ComputeNormal(p0: Vec3, p1: Vec3, p2: Vec3, sqrt: real -> real): (r: Vec3)
    ensures Dot(r, Sub(p1, p0)) == 0.0 && Dot(r, Sub(p2, p0)) == 0.0
    ensures IsSqrtAt(sqrt, SquaredLength(EdgeCross(p0, p1, p2))) ==>
              && (r == Zero <==> EdgeCross(p0, p1, p2) == Zero)
              && (EdgeCross(p0, p1, p2) != Zero ==> SquaredLength(r) == 1.0)
  {
    var u := Sub(p1, p0);
    var v := Sub(p2, p0);
    var normal := Cross(u, v);
    var r := Normalize(normal, sqrt);
    var c :| 0.0 <= c && r == Scale(c, normal);
    ScaledOrthogonal(c, normal, u);
    ScaledOrthogonal(c, normal, v);
    r
  }

  /** A multiple of a vector orthogonal to `w` is orthogonal to `w`. */
  lemma ScaledOrthogonal(c: real, n: Vec3, w: Vec3)
    requires Dot(n, w) == 0.0
    ensures Dot(Scale(c, n), w) == 0.0
  {
    assert Dot(Scale(c, n), w) == c * Dot(n, w);
  }

  /** Two vectors of which one is a multiple of the other have a zero cross product. */
  lemma ParallelCross(u: Vec3, v: Vec3, t: real)
    requires v == Scale(t, u) || u == Scale(t, v)
    ensures Cross(u, v) == Zero
  {
    if v == Scale(t, u) {
      CrossOfParallel(u, t);
    } else {
      CrossOfParallel(v, t);
      CrossAntiCommutes(v, u);
    }
  }

  /** Three points on one line give the zero normal, whatever `sqrt` returns. */
  lemma CollinearNormalIsZero(p0: Vec3, p1: Vec3, p2: Vec3, t: real, sqrt: real -> real)
    requires Sub(p2, p0) == Scale(t, Sub(p1, p0)) || Sub(p1, p0) == Scale(t, Sub(p2, p0))
    ensures ComputeNormal(p0, p1, p2, sqrt) == Zero
  {
    ParallelCross(Sub(p1, p0), Sub(p2, p0), t);
    var r := ComputeNormal(p0, p1, p2, sqrt);
    var c :| 0.0 <= c && r == Scale(c, EdgeCross(p0, p1, p2));
  }

  /** If `a * vw == w * va` and `a` is not zero, then `w` scaled by `va / a` is `vw`. */
  lemma RatioScales(a: real, va: real, w: real, vw: real)
    requires a != 0.0 && a * vw == w * va
    ensures (va / a) * w == vw
  {
    calc {
      (va / a) * w;
      (w * va) / a;
      (a * vw) / a;
      vw;
    }
  }

  /** A zero cross product with a nonzero coordinate of `u` makes `v` a multiple of `u`. */
  lemma CrossZeroAlongX(u: Vec3, v: Vec3)
    requires Cross(u, v) == Zero && u.x != 0.0
    ensures v == Scale(v.x / u.x, u)
  {
    RatioScales(u.x, v.x, u.x, v.x);
    RatioScales(u.x, v.x, u.y, v.y);
    RatioScales(u.x, v.x, u.z, v.z);
  }

  lemma CrossZeroAlongY(u: Vec3, v: Vec3)
    requires Cross(u, v) == Zero && u.y != 0.0
    ensures v == Scale(v.y / u.y, u)
  {
    RatioScales(u.y, v.y, u.x, v.x);
    RatioScales(u.y, v.y, u.y, v.y);
    RatioScales(u.y, v.y, u.z, v.z);
  }

  lemma CrossZeroAlongZ(u: Vec3, v: Vec3)
    requires Cross(u, v) == Zero && u.z != 0.0
    ensures v == Scale(v.z / u.z, u)
  {
    RatioScales(u.z, v.z, u.x, v.x);
    RatioScales(u.z, v.z, u.y, v.y);
    RatioScales(u.z, v.z, u.z, v.z);
  }

  /** A zero cross product means one factor is a multiple of the other: the converse of `ParallelCross`. */
  lemma CrossZeroIsParallel(u: Vec3, v: Vec3)
    requires Cross(u, v) == Zero
    ensures exists t :: v == Scale(t, u) || u == Scale(t, v)
  {
    if u.x != 0.0 {
      CrossZeroAlongX(u, v);
    } else if u.y != 0.0 {
      CrossZeroAlongY(u, v);
    } else if u.z != 0.0 {
      CrossZeroAlongZ(u, v);
    } else {
      assert u == Scale(0.0, v);
    }
  }

  /** One edge from `p0` is a multiple of the other: the three points lie on one line. */
  ghost predicate Collinear(p0: Vec3, p1: Vec3, p2: Vec3)
  {
    exists t :: Sub(p2, p0) == Scale(t, Sub(p1, p0)) || Sub(p1, p0) == Scale(t, Sub(p2, p0))
  }

  /**
   With a true square root, the normal is zero exactly for three points on one
   line, and has length one for every other triple.
   */
  lemma NormalZeroIffCollinear(p0: Vec3, p1: Vec3, p2: Vec3, sqrt: real -> real)
    requires IsSqrtAt(sqrt, SquaredLength(EdgeCross(p0, p1, p2)))
    ensures ComputeNormal(p0, p1, p2, sqrt) == Zero <==> Collinear(p0, p1, p2)
    ensures !Collinear(p0, p1, p2) ==> SquaredLength(ComputeNormal(p0, p1, p2, sqrt)) == 1.0
  {
    var u, v := Sub(p1, p0), Sub(p2, p0);
    if EdgeCross(p0, p1, p2) == Zero {
      CrossZeroIsParallel(u, v);
    } else if Collinear(p0, p1, p2) {
      var t :| v == Scale(t, u) || u == Scale(t, v);
      ParallelCross(u, v, t);
    }
  }

  lemma CrossOfUnitXY(u: Vec3, v: Vec3)
    requires u == Vec3(1.0, 0.0, 0.0) && v == Vec3(0.0, 1.0, 0.0)
    ensures Cross(u, v) == Vec3(0.0, 0.0, 1.0)
  {
    var c := Cross(u, v);
    assert c.x == 0.0 && c.y == 0.0 && c.z == 1.0;
  }

  lemma EdgeCrossOfExample(p0: Vec3, p1: Vec3, p2: Vec3)
    requires p0 == Vec3(0.0, 0.0, 0.0) && p1 == Vec3(1.0, 0.0, 0.0) && p2 == Vec3(0.0, 1.0, 0.0)
    ensures EdgeCross(p0, p1, p2) == Vec3(0.0, 0.0, 1.0)
  {
    var u, v := Sub(p1, p0), Sub(p2, p0);
    assert u == Vec3(1.0, 0.0, 0.0) && v == Vec3(0.0, 1.0, 0.0);
    CrossOfUnitXY(u, v);
  }

  lemma NormalizeUnitZ(n: Vec3, sqrt: real -> real)
    requires n == Vec3(0.0, 0.0, 1.0) && sqrt(1.0) == 1.0
    ensures Normalize(n, sqrt) == n
  {
    var s := SquaredLength(n);
    assert s == 1.0 by {
      assert Square(n.x) == 0.0 && Square(n.y) == 0.0 && Square(n.z) == 1.0;
    }
    var length := sqrt(s);
    assert length == 1.0;
    assert Normalize(n, sqrt) == Vec3(n.x / length, n.y / length, n.z / length);
  }

  /** (0,0,0), (1,0,0), (0,1,0) give the normal (0,0,1). */
  lemma UnitSquareNormal(p0: Vec3, p1: Vec3, p2: Vec3, sqrt: real -> real)
    requires p0 == Vec3(0.0, 0.0, 0.0) && p1 == Vec3(1.0, 0.0, 0.0) && p2 == Vec3(0.0, 1.0, 0.0)
    requires sqrt(1.0) == 1.0
    ensures ComputeNormal(p0, p1, p2, sqrt) == Vec3(0.0, 0.0, 1.0)
  {
    EdgeCrossOfExample(p0, p1, p2);
    NormalizeUnitZ(EdgeCross(p0, p1, p2), sqrt);
  }

  /**
   `get_cube_normal`: the normals of the first three points of the top, right
   and front faces. A face with fewer than three points leaves `compute_normal`
   short of arguments.
   */
  function GetCubeNormal(cubeFaces: Faces, sqrt: real -> real): (r: Result<CubeNormals, PyError>)
    ensures r.Ok? <==> |cubeFaces.top| >= 3 && |cubeFaces.right| >= 3 && |cubeFaces.front| >= 3
    ensures r.Err? ==> r.error == TypeError
    ensures r.Ok? ==>
              && r.value.up == ComputeNormal(cubeFaces.top[0], cubeFaces.top[1], cubeFaces.top[2], sqrt)
              && r.value.side == ComputeNormal(cubeFaces.right[0], cubeFaces.right[1], cubeFaces.right[2], sqrt)
              && r.value.front == ComputeNormal(cubeFaces.front[0], cubeFaces.front[1], cubeFaces.front[2], sqrt)
  {
    var top, right, front := cubeFaces.top, cubeFaces.right, cubeFaces.front;
    if |top| < 3 || |right| < 3 || |front| < 3 then Err(TypeError)
    else
      Ok(CubeNormals(ComputeNormal(top[0], top[1], top[2], sqrt),
                     ComputeNormal(right[0], right[1], right[2], sqrt),
                     ComputeNormal(front[0], front[1], front[2], sqrt)))
  }

  /** The deduplication key: the point with each coordinate rounded by `round`. */
  function RoundedKey(round: real -> real): Vec3 -> Vec3
  {
    (v: Vec3) => Vec3(round(v.x), round(v.y), round(v.z))
  }

  /**
   `deduplicate`: keep a point only when its rounded coordinates have not been
   seen before. The result keeps the input order, holds exactly the first
   point of each rounded position of the input, and deduplicating it again
   changes nothing.
   */
  method Deduplicate(vertices: seq<Vec3>, round: real -> real) returns (result: seq<Vec3>)
    ensures result == Dedup(vertices, RoundedKey(round))
    ensures IsSubseq(result, vertices)
    ensures forall i, j :: 0 <= i < j < |result| ==> RoundedKey(round)(result[i]) != RoundedKey(round)(result[j])
    ensures forall k :: k in Keys(result, RoundedKey(round)) <==> k in Keys(vertices, RoundedKey(round))
    ensures Dedup(result, RoundedKey(round)) == result
    ensures KeepsFirstOfEachKey(vertices, result, RoundedKey(round))
  {
    var seen: set<Vec3> := {};
    result := [];
    for i := 0 to |vertices|
      invariant result == Dedup(vertices[..i], RoundedKey(round))
      invariant forall k :: k in seen <==> k in Keys(result, RoundedKey(round))
    {
      var v := vertices[i];
      var key := Vec3(round(v.x), round(v.y), round(v.z));
      assert key == RoundedKey(round)(v);
      assert vertices[..i + 1] == vertices[..i] + [v];
      DedupAppend(vertices[..i], v, RoundedKey(round));
      if key !in seen {
        KeysAppend(result, v, RoundedKey(round));
        seen := seen + {key};
        result := result + [v];
      }
    }
    assert vertices[..|vertices|] == vertices;
    DedupIsSubseq(vertices, RoundedKey(round));
    DedupIdempotent(vertices, RoundedKey(round));
    DedupKeepsFirstOfEachKey(vertices, RoundedKey(round));
  }
}
