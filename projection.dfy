/**
 * The geometry projector: each vertex's (x, y) is lifted to (x, y, 1),
 * multiplied on the right by the transpose of the stroke's 3x3 matrix, cut
 * back to two coordinates and scaled by the page scale; consecutive points
 * become line segments.
 */
module Projection {
  import opened StrokeDecode

  /** The fixed page scale that maps source units to output units. */
  const Scale: real := 279.0

  datatype Point = Point(x: real, y: real)

  /** A straight piece between two consecutive projected points. */
  datatype Segment = Segment(xStart: real, yStart: real, xEnd: real, yEnd: real)

  /** A 3x3 matrix as its list of rows. */
  predicate IsSquare3(m: seq<seq<real>>)
  {
    |m| == 3 && forall i :: 0 <= i < 3 ==> |m[i]| == 3
  }

  /** The parsed "values" list read row-major, as reshape(3, 3) does. */
  function MatrixOf(values: seq<real>): (m: seq<seq<real>>)
    requires |values| == 9
    ensures IsSquare3(m)
    ensures forall i, j :: 0 <= i < 3 && 0 <= j < 3 ==> m[i][j] == values[3 * i + j]
  {
    [values[0..3], values[3..6], values[6..9]]
  }

  function Transpose(m: seq<seq<real>>): (t: seq<seq<real>>)
    requires IsSquare3(m)
    ensures IsSquare3(t)
    ensures forall i, j :: 0 <= i < 3 && 0 <= j < 3 ==> t[i][j] == m[j][i]
  {
    [[m[0][0], m[1][0], m[2][0]],
     [m[0][1], m[1][1], m[2][1]],
     [m[0][2], m[1][2], m[2][2]]]
  }

  /** A row vector times a matrix (numpy `@` with the vector on the left). */
  function RowTimes(p: seq<real>, m: seq<seq<real>>): (q: seq<real>)
    requires |p| == 3 && IsSquare3(m)
    ensures |q| == 3
  {
    [p[0] * m[0][0] + p[1] * m[1][0] + p[2] * m[2][0],
     p[0] * m[0][1] + p[1] * m[1][1] + p[2] * m[2][1],
     p[0] * m[0][2] + p[1] * m[1][2] + p[2] * m[2][2]]
  }

  /** A matrix times a column vector, the textbook M·v. */
  function TimesColumn(m: seq<seq<real>>, v: seq<real>): (q: seq<real>)
    requires |v| == 3 && IsSquare3(m)
    ensures |q| == 3
  {
    [m[0][0] * v[0] + m[0][1] * v[1] + m[0][2] * v[2],
     m[1][0] * v[0] + m[1][1] * v[1] + m[1][2] * v[2],
     m[2][0] * v[0] + m[2][1] * v[1] + m[2][2] * v[2]]
  }

  /** p·Mᵀ is (M·p)ᵀ: the row form the code uses equals the textbook column form M·p. */
  lemma RowTimesTranspose(p: seq<real>, m: seq<seq<real>>)
    requires |p| == 3 && IsSquare3(m)
    ensures RowTimes(p, Transpose(m)) == TimesColumn(m, p)
  {
    var t := Transpose(m);
    forall j | 0 <= j < 3
      ensures RowTimes(p, t)[j] == TimesColumn(m, p)[j]
    {
      assert t[0][j] == m[j][0] && t[1][j] == m[j][1] && t[2][j] == m[j][2];
    }
  }

  /** render_pdf's projection and scaling of one vertex: the affine map given by the first
      two rows of the row-major matrix, applied to (x, y, 1) and scaled by 279. */
  function Project(v: Vertex, values: seq<real>): (p: Point)
    requires |values| == 9
  {
    Point(Scale * (values[0] * v.x + values[1] * v.y + values[2]),
          Scale * (values[3] * v.x + values[4] * v.y + values[5]))
  }

  /** The projection is what the code computes with numpy: the homogeneous
      lift (x, y, 1) times the transpose of reshape(3, 3), cut back to its
      first two components, times the page scale. */
  lemma ProjectIsMatrixProduct(v: Vertex, values: seq<real>)
    requires |values| == 9
    ensures
      var q := RowTimes([v.x, v.y, 1.0], Transpose(MatrixOf(values)));
      Project(v, values) == Point(q[0] * Scale, q[1] * Scale)
    ensures
      var q := TimesColumn(MatrixOf(values), [v.x, v.y, 1.0]);
      Project(v, values) == Point(q[0] * Scale, q[1] * Scale)
  {
    RowTimesTranspose([v.x, v.y, 1.0], MatrixOf(values));
  }

  /** The third row of the matrix never reaches the page. */
  lemma ProjectIgnoresThirdRow(v: Vertex, values: seq<real>, other: seq<real>)
    requires |values| == |other| == 9
    requires values[..6] == other[..6]
    ensures Project(v, values) == Project(v, other)
  {
    assert forall i :: 0 <= i < 6 ==> values[i] == values[..6][i] == other[..6][i] == other[i];
  }

  /** The identity matrix, row-major. */
  const IdentityValues: seq<real> := [1.0, 0.0, 0.0, 0.0, 1.0, 0.0, 0.0, 0.0, 1.0]

  /** With the identity matrix a vertex lands on (279x, 279y). */
  lemma ProjectIdentity(v: Vertex)
    ensures Project(v, IdentityValues) == Point(Scale * v.x, Scale * v.y)
  {
  }

  /** Only x and y reach the page; the other four channels are ignored. */
  lemma ProjectIgnoresExtraChannels(v: Vertex, w: Vertex, values: seq<real>)
    requires |values| == 9
    requires v.x == w.x && v.y == w.y
    ensures Project(v, values) == Project(w, values)
  {
  }

  /** Every vertex of a stroke projected, in order. */
  function ProjectAll(vs: seq<Vertex>, values: seq<real>): (ps: seq<Point>)
    requires |values| == 9
    ensures |ps| == |vs|
    decreases |vs|
  {
    if vs == [] then [] else [Project(vs[0], values)] + ProjectAll(vs[1..], values)
  }

  lemma {:induction false} ProjectAllAt(vs: seq<Vertex>, values: seq<real>, k: nat)
    requires |values| == 9
    requires k < |vs|
    ensures ProjectAll(vs, values)[k] == Project(vs[k], values)
    decreases |vs|
  {
    if k > 0 {
      ProjectAllAt(vs[1..], values, k - 1);
    }
  }

  /** The chords between consecutive points. */
  function Segments(ps: seq<Point>): seq<Segment>
  {
    if |ps| < 2 then []
    else [Segment(ps[0].x, ps[0].y, ps[1].x, ps[1].y)] + Segments(ps[1..])
  }

  /** n points give max(n - 1, 0) segments, segment r running from point r
      to point r + 1. */
  lemma {:induction false} SegmentsShape(ps: seq<Point>)
    ensures |Segments(ps)| == if |ps| == 0 then 0 else |ps| - 1
    ensures forall r :: 0 <= r < |Segments(ps)| ==>
      Segments(ps)[r] == Segment(ps[r].x, ps[r].y, ps[r + 1].x, ps[r + 1].y)
    decreases |ps|
  {
    if |ps| >= 2 {
      SegmentsShape(ps[1..]);
    }
  }
}
