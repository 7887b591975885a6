/**
 * Two-dimensional affine matrices in the layout of `android.graphics.Matrix`:
 * a 3x3 homogeneous matrix whose bottom row is fixed to (0, 0, 1), so that
 * only its six upper coefficients are stored.
 */
module Affine {

  datatype Point = Point(x: real, y: real)

  /**
   * The coefficients in row-major order, named after the MSCALE_X, MSKEW_X,
   * MTRANS_X, MSKEW_Y, MSCALE_Y and MTRANS_Y slots of the Android matrix.
   */
  datatype Matrix = Matrix(scaleX: real, skewX: real, transX: real,
                           skewY: real, scaleY: real, transY: real)

  /** The matrix a freshly constructed `Matrix()` holds. */
  const Identity: Matrix := Matrix(1.0, 0.0, 0.0, 0.0, 1.0, 0.0)

  /** The pure translation by (dx, dy). */
  function Translation(dx: real, dy: real): Matrix {
    Matrix(1.0, 0.0, dx, 0.0, 1.0, dy)
  }

  /** The image of point `p` under `m` (the point-mapping meaning of a matrix). */
  function Apply(m: Matrix, p: Point): Point {
    Point(m.scaleX * p.x + m.skewX * p.y + m.transX,
          m.skewY * p.x + m.scaleY * p.y + m.transY)
  }

  /** Two matrices are equal exactly when they map every point alike. */
  lemma {:induction false} SameMapSameMatrix(a: Matrix, b: Matrix)
    requires forall p :: Apply(a, p) == Apply(b, p)
    ensures a == b
  {
    var o := Apply(a, Point(0.0, 0.0));
    assert o == Apply(b, Point(0.0, 0.0));
    var ex := Apply(a, Point(1.0, 0.0));
    assert ex == Apply(b, Point(1.0, 0.0));
    var ey := Apply(a, Point(0.0, 1.0));
    assert ey == Apply(b, Point(0.0, 1.0));
  }

  /** The product `a * b`: mapping a point through it applies `b` first, then `a`. */
  function Concat(a: Matrix, b: Matrix): Matrix {
    Matrix(a.scaleX * b.scaleX + a.skewX * b.skewY,
           a.scaleX * b.skewX + a.skewX * b.scaleY,
           a.scaleX * b.transX + a.skewX * b.transY + a.transX,
           a.skewY * b.scaleX + a.scaleY * b.skewY,
           a.skewY * b.skewX + a.scaleY * b.scaleY,
           a.skewY * b.transX + a.scaleY * b.transY + a.transY)
  }

  /** Mapping a point through `a * b` maps it through `b`, then through `a`. */
  lemma ConcatMaps(a: Matrix, b: Matrix, p: Point)
    ensures Apply(Concat(a, b), p) == Apply(a, Apply(b, p))
  {
    var q := Apply(b, p);
    var c := Concat(a, b);
    RowTimesColumn(a.scaleX, a.skewX, a.transX, b, p);
    RowTimesColumn(a.skewY, a.scaleY, a.transY, b, p);
    assert Apply(c, p).x == Apply(a, q).x;
    assert Apply(c, p).y == Apply(a, q).y;
  }

  /** One row (u, v, w) of `a` applied to the image of `p` under `b`, regrouped by coordinate. */
  lemma RowTimesColumn(u: real, v: real, w: real, b: Matrix, p: Point)
    ensures u * (b.scaleX * p.x + b.skewX * p.y + b.transX)
          + v * (b.skewY * p.x + b.scaleY * p.y + b.transY) + w
         == (u * b.scaleX + v * b.skewY) * p.x
          + (u * b.skewX + v * b.scaleY) * p.y
          + (u * b.transX + v * b.transY + w)
  {
    assert u * (b.scaleX * p.x + b.skewX * p.y + b.transX)
        == u * b.scaleX * p.x + u * b.skewX * p.y + u * b.transX;
    assert v * (b.skewY * p.x + b.scaleY * p.y + b.transY)
        == v * b.skewY * p.x + v * b.scaleY * p.y + v * b.transY;
  }

  /**
   * `m.postConcat(other)`: the new matrix is `other * m`, so the incremental
   * transform `other` acts after everything `m` already does.
   */
  function PostConcat(m: Matrix, other: Matrix): Matrix {
    Concat(other, m)
  }

  /** After `postConcat`, a point is mapped by the old matrix and then by `other`. */
  lemma PostConcatMaps(m: Matrix, other: Matrix, p: Point)
    ensures Apply(PostConcat(m, other), p) == Apply(other, Apply(m, p))
  {
    ConcatMaps(other, m, p);
  }

  /** Post-concatenating the identity changes nothing. */
  lemma PostConcatIdentity(m: Matrix)
    ensures PostConcat(m, Identity) == m
  {
  }

  /**
   * Post-concatenating a translation shifts the translation coefficients and
   * leaves the four linear coefficients (hence scale and rotation) alone.
   */
  lemma PostConcatTranslation(m: Matrix, dx: real, dy: real)
    ensures PostConcat(m, Translation(dx, dy))
         == m.(transX := m.transX + dx, transY := m.transY + dy)
  {
  }

  /** Successive post-concatenations compose in the order they were applied. */
  lemma {:induction false} PostConcatTwice(m: Matrix, t1: Matrix, t2: Matrix)
    ensures PostConcat(PostConcat(m, t1), t2) == PostConcat(m, Concat(t2, t1))
  {
    forall p
      ensures Apply(PostConcat(PostConcat(m, t1), t2), p) == Apply(PostConcat(m, Concat(t2, t1)), p)
    {
      PostConcatMaps(PostConcat(m, t1), t2, p);
      PostConcatMaps(m, t1, p);
      PostConcatMaps(m, Concat(t2, t1), p);
      ConcatMaps(t2, t1, Apply(m, p));
    }
    SameMapSameMatrix(PostConcat(PostConcat(m, t1), t2), PostConcat(m, Concat(t2, t1)));
  }
}
