/**
 * The `MatrixGestureDetector` state machine: two four-float pointer buffers,
 * the solver offset `pointerIndex`, the accumulated matrix, the readouts
 * derived from it, and the listener. Every operation is a pure function from
 * the old detector to the new one.
 */
module GestureDetector {
  import opened Outcome
  import opened Affine
  import opened Touch

  /**
   * `Matrix.setPolyToPoly(src, srcIndex, dst, dstIndex, pointCount)`: the
   * transform mapping `pointCount` source points to as many destination
   * points, or `None` when the platform reports the points degenerate.
   */
  type PolyToPoly = (seq<real>, int, seq<real>, int, int) -> Option<Matrix>

  /**
   * The platform capabilities the detector calls but does not define: the
   * point-mapping solver, the square root and `atan2` converted to degrees.
   */
  datatype Platform = Platform(polyToPoly: PolyToPoly,
                               sqrt: real -> real,
                               atan2Degrees: (real, real) -> real)

  /** The readouts `translate`, `scale` and `angle`. */
  datatype Readout = Readout(translate: Point, scale: real, angle: real)

  /** A pointer buffer: the (x, y) of pointer id `k` sit at `2 * k` and `2 * k + 1`. */
  type Buffer = b: seq<real> | |b| == 4 witness [0.0, 0.0, 0.0, 0.0]

  /** `FloatArray(4)`. */
  const Zeros: Buffer := [0.0, 0.0, 0.0, 0.0]

  /** The fault the platform raises when the solver would read past a buffer. */
  datatype Fault = PolyToPolyOutOfBounds

  /**
   * One `onMatrixChange` call as the listener can observe it: the matrix it
   * is handed, already updated by the move, and the detector's readouts and
   * reference buffer at that moment, which still describe the state before
   * the move (the copy into `source` and `setTransformations` run after it).
   */
  datatype Notice = Notice(matrix: Matrix, readout: Readout, source: Buffer)

  /**
   * The detector's fields. `temp` is the scratch matrix the solver writes
   * into; `listener` says whether a listener is registered and `notified`
   * logs, in order, every call made to it.
   */
  datatype Detector = Detector(matrix: Matrix,
                               source: Buffer,
                               distance: Buffer,
                               pointerIndex: int,
                               temp: Matrix,
                               readout: Readout,
                               listener: bool,
                               notified: seq<Notice>)

  /**
   * `setTransformations`' arithmetic: the translation coefficients are taken
   * as they are, scale is the length of the first column and the angle the
   * negated direction of the first row, in degrees.
   */
  function Decompose(p: Platform, m: Matrix): (r: Readout)
    ensures r.translate == Apply(m, Point(0.0, 0.0))
  {
    Readout(Point(m.transX, m.transY),
            p.sqrt(SquaredLength(m.scaleX, m.skewY)),
            -p.atan2Degrees(m.skewX, m.scaleX))
  }

  /** `x * x + y * y`, the squared length of the vector (x, y). */
  function SquaredLength(x: real, y: real): real {
    x * x + y * y
  }

  /** The readouts depend on the matrix alone, and scale and angle on its linear part. */
  lemma DecomposeTranslated(p: Platform, m: Matrix, dx: real, dy: real)
    ensures Decompose(p, m.(transX := m.transX + dx, transY := m.transY + dy))
         == Decompose(p, m).(translate := Point(m.transX + dx, m.transY + dy))
  {
  }

  /** `sqrt` returns the non-negative square root of every non-negative argument. */
  ghost predicate ExactSqrt(p: Platform) {
    forall v :: v >= 0.0 ==> p.sqrt(v) >= 0.0 && p.sqrt(v) * p.sqrt(v) == v
  }

  /** A direction along the positive x axis has angle zero. */
  ghost predicate ZeroAngleOnPositiveAxis(p: Platform) {
    forall x :: x > 0.0 ==> p.atan2Degrees(0.0, x) == 0.0
  }

  /** The identity matrix reads as translate (0, 0), scale 1 and angle 0. */
  lemma IdentityReadout(p: Platform)
    requires ExactSqrt(p)
    requires ZeroAngleOnPositiveAxis(p)
    ensures Decompose(p, Identity) == Readout(Point(0.0, 0.0), 1.0, 0.0)
  {
    assert SquaredLength(1.0, 0.0) == 1.0;
    var s := p.sqrt(1.0);
    assert s >= 0.0 && s * s == 1.0;
    UnitSquareRoot(s);
    assert p.atan2Degrees(0.0, 1.0) == 0.0;
  }

  /** The only non-negative square root of 1 is 1. */
  lemma UnitSquareRoot(s: real)
    requires s >= 0.0 && s * s == 1.0
    ensures s == 1.0
  {
    if s < 1.0 {
      ScaleBelow(s, 1.0, s);
    } else if s > 1.0 {
      ScaleBelow(1.0, s, s);
    }
  }

  /** Multiplying by a non-negative factor keeps the order. */
  lemma ScaleBelow(a: real, b: real, c: real)
    requires 0.0 <= c && a <= b
    ensures a * c <= b * c
  {
  }

  /** A detector constructed around the identity starts at translate (0, 0), scale 1, angle 0. */
  lemma IdentityStart(p: Platform, listener: bool)
    requires ExactSqrt(p)
    requires ZeroAngleOnPositiveAxis(p)
    ensures Init(p, Identity, listener).readout == Readout(Point(0.0, 0.0), 1.0, 0.0)
  {
    IdentityReadout(p);
  }

  /**
   * What every reachable detector satisfies: the solver offset selects
   * slot 0 or slot 1, the readouts agree with the matrix, nothing was
   * notified without a listener, and the last matrix the listener saw is
   * the current one.
   */
  ghost predicate Valid(p: Platform, s: Detector) {
    && (s.pointerIndex == 0 || s.pointerIndex == 2)
    && s.readout == Decompose(p, s.matrix)
    && (!s.listener ==> s.notified == [])
    && (|s.notified| > 0 ==> s.notified[|s.notified| - 1].matrix == s.matrix)
  }

  /** The squared distance between two points. */
  function SquaredDistance(a: Point, b: Point): real {
    SquaredLength(a.x - b.x, a.y - b.y)
  }

  /** A sum of squares is never negative. */
  lemma SquaredLengthNonNegative(x: real, y: real)
    ensures SquaredLength(x, y) >= 0.0
  {
  }

  /**
   * `setTransformations()`: recompute the readouts from the matrix, nothing
   * else. `translate` is where the matrix sends the origin; with an exact
   * square root `scale` is how far it stretches the unit vector along x; a
   * matrix whose first row has MSKEW_X = 0 and MSCALE_X > 0 (vertical lines
   * stay vertical) reads angle 0.
   */
  function SetTransformations(p: Platform, s: Detector): (r: Detector)
    ensures r.matrix == s.matrix && r.source == s.source && r.distance == s.distance
    ensures r.pointerIndex == s.pointerIndex && r.temp == s.temp
    ensures r.listener == s.listener && r.notified == s.notified
    ensures r.readout.translate == Apply(r.matrix, Point(0.0, 0.0))
    ensures ExactSqrt(p) ==>
      && r.readout.scale >= 0.0
      && r.readout.scale * r.readout.scale
         == SquaredDistance(Apply(r.matrix, Point(1.0, 0.0)), Apply(r.matrix, Point(0.0, 0.0)))
    ensures ZeroAngleOnPositiveAxis(p) && r.matrix.skewX == 0.0 && r.matrix.scaleX > 0.0 ==>
      r.readout.angle == 0.0
  {
    SquaredLengthNonNegative(s.matrix.scaleX, s.matrix.skewY);
    s.(readout := Decompose(p, s.matrix))
  }

  /** Recomputing the readouts twice gives what recomputing once gives. */
  lemma SetTransformationsIdempotent(p: Platform, s: Detector)
    ensures SetTransformations(p, SetTransformations(p, s)) == SetTransformations(p, s)
  {
  }

  /**
   * The constructor: both buffers zero, offset 0, scratch matrix identity,
   * readouts computed from the seed matrix, no notification yet.
   */
  function Init(p: Platform, seed: Matrix, listener: bool): (r: Detector)
    ensures Valid(p, r)
    ensures r.matrix == seed && r.listener == listener
    ensures r.source == Zeros && r.distance == Zeros && r.pointerIndex == 0
    ensures r.temp == Identity && r.notified == []
    ensures r.readout.translate == Point(seed.transX, seed.transY)
  {
    SetTransformations(p, Detector(seed, Zeros, Zeros, 0, Identity,
                                   Readout(Point(0.0, 0.0), 0.0, 0.0),
                                   listener, []))
  }

  /** Assigning the public `listener` property; it never fires by itself. */
  function SetListener(s: Detector): (r: Detector)
    ensures r.listener
    ensures r.notified == s.notified && r.matrix == s.matrix
    ensures r.source == s.source && r.distance == s.distance
    ensures r.pointerIndex == s.pointerIndex && r.temp == s.temp && r.readout == s.readout
    ensures forall p :: Valid(p, s) ==> Valid(p, r)
  {
    s.(listener := true)
  }

  /** Writes pointer `q`'s position into its slot of `buf`. */
  function Write(buf: Buffer, q: Pointer): (r: Buffer)
    requires 0 <= q.id <= 1
    ensures r[2 * q.id] == q.x && r[2 * q.id + 1] == q.y
    ensures forall k :: 0 <= k < 4 && k / 2 != q.id ==> r[k] == buf[k]
  {
    buf[2 * q.id := q.x][2 * q.id + 1 := q.y]
  }

  /**
   * The loop `for (i in 0 until pointerCount)` that stores every reported
   * pointer at `buf[id * 2]` and `buf[id * 2 + 1]`: each reported pointer's
   * position lands in its slot and the slots of unreported ids keep their values.
   */
  function Record(buf: Buffer, ps: seq<Pointer>): (r: Buffer)
    requires ValidPointers(ps)
    ensures forall j :: 0 <= j < |ps| ==> r[2 * ps[j].id] == ps[j].x && r[2 * ps[j].id + 1] == ps[j].y
    ensures forall k :: 0 <= k < 4 && !Reports(ps, k / 2) ==> r[k] == buf[k]
    decreases |ps|
  {
    if |ps| == 0 then buf
    else
      var rest := Record(Write(buf, ps[0]), ps[1..]);
      assert !Reports(ps[1..], ps[0].id);
      rest
  }

  /** Recording both pointers overwrites the whole buffer. */
  lemma RecordBoth(buf: Buffer, a: Point, b: Point)
    ensures ValidPointers([Pointer(0, a.x, a.y), Pointer(1, b.x, b.y)])
    ensures Record(buf, [Pointer(0, a.x, a.y), Pointer(1, b.x, b.y)]) == [a.x, a.y, b.x, b.y]
  {
    var ps := [Pointer(0, a.x, a.y), Pointer(1, b.x, b.y)];
    assert ps[0].id == 0 && ps[1].id == 1;
  }

  /** Recording a single pointer overwrites its own slot and nothing else. */
  lemma RecordOne(buf: Buffer, q: Pointer)
    requires 0 <= q.id <= 1
    ensures ValidPointers([q])
    ensures Record(buf, [q]) == Write(buf, q)
  {
    assert [q][1..] == [];
  }

  /** The solver's bounds check: both reads stay within the four-float buffers. */
  predicate SolverInBounds(index: int, count: int) {
    0 <= index && index + 2 * count <= 4
  }

  /** `tempMatrix.setPolyToPoly(...)`: on failure the scratch matrix keeps its old value. */
  function Solve(p: Platform, src: Buffer, index: int, dst: Buffer, count: int, previous: Matrix): (t: Matrix)
    ensures p.polyToPoly(src, index, dst, index, count).None? ==> t == previous
    ensures p.polyToPoly(src, index, dst, index, count).Some? ==> t == p.polyToPoly(src, index, dst, index, count).value
  {
    p.polyToPoly(src, index, dst, index, count).GetOr(previous)
  }

  /** ACTION_DOWN and ACTION_POINTER_DOWN: record reference positions, reset the offset. */
  function OnDown(s: Detector, ps: seq<Pointer>): (r: Detector)
    requires ValidPointers(ps)
    ensures forall j :: 0 <= j < |ps| ==> r.source[2 * ps[j].id] == ps[j].x && r.source[2 * ps[j].id + 1] == ps[j].y
    ensures forall k :: 0 <= k < 4 && !Reports(ps, k / 2) ==> r.source[k] == s.source[k]
    ensures r.pointerIndex == 0
    ensures r == s.(source := r.source, pointerIndex := 0)
  {
    s.(source := Record(s.source, ps), pointerIndex := 0)
  }

  /**
   * ACTION_MOVE: record current positions, solve for the incremental
   * transform between the reference and current slots starting at the
   * offset, post-concatenate it, notify with the readouts and reference
   * positions not yet updated, then make the current positions the new
   * reference. Fails when the solver's reads leave the buffers.
   */
  function OnMove(p: Platform, s: Detector, ps: seq<Pointer>): (r: Result<Detector, Fault>)
    requires ValidPointers(ps)
    ensures r.Failure? <==> !SolverInBounds(s.pointerIndex, |ps|)
    ensures r.Success? ==> var d := r.value;
      && (forall j :: 0 <= j < |ps| ==> d.distance[2 * ps[j].id] == ps[j].x && d.distance[2 * ps[j].id + 1] == ps[j].y)
      && (forall k :: 0 <= k < 4 && !Reports(ps, k / 2) ==> d.distance[k] == s.distance[k])
      && d.source == d.distance
      && d.temp == Solve(p, s.source, s.pointerIndex, d.distance, |ps|, s.temp)
      && d.matrix == PostConcat(s.matrix, d.temp)
      && d.notified == s.notified + (if s.listener then [Notice(d.matrix, s.readout, s.source)] else [])
      && d.pointerIndex == s.pointerIndex && d.listener == s.listener && d.readout == s.readout
  {
    var dist := Record(s.distance, ps);
    if !SolverInBounds(s.pointerIndex, |ps|) then Failure(PolyToPolyOutOfBounds)
    else
      var t := Solve(p, s.source, s.pointerIndex, dist, |ps|, s.temp);
      var m := PostConcat(s.matrix, t);
      var log := if s.listener then s.notified + [Notice(m, s.readout, s.source)] else s.notified;
      Success(s.(distance := dist, temp := t, matrix := m, notified := log, source := dist))
  }

  /** ACTION_POINTER_UP: when pointer 0 lifts, the solver moves on to slot 1. */
  function OnPointerUp(s: Detector, e: Event): (r: Detector)
    requires e.actionIndex < e.Count()
    ensures e.pointers[e.actionIndex].id == 0 ==> r.pointerIndex == 2
    ensures e.pointers[e.actionIndex].id != 0 ==> r.pointerIndex == s.pointerIndex
    ensures r == s.(pointerIndex := r.pointerIndex)
  {
    if e.pointers[e.actionIndex].id == 0 then s.(pointerIndex := 2) else s
  }

  /**
   * `onTouchEvent`: reject events with more than two pointers untouched,
   * otherwise dispatch on the action and recompute the readouts.
   */
  function Step(p: Platform, s: Detector, e: Event): (r: Result<Detector, Fault>)
    requires WellFormed(e)
    ensures e.Count() > 2 ==> r == Success(s)
    ensures r.Failure? <==> e.Count() <= 2 && e.action == Move && !SolverInBounds(s.pointerIndex, e.Count())
    ensures r.Success? && e.Count() <= 2 ==> r.value.readout == Decompose(p, r.value.matrix)
    ensures r.Success? && e.Count() <= 2 ==> r.value.readout.translate == Point(r.value.matrix.transX, r.value.matrix.transY)
    ensures e.Count() <= 2 && e.action in {Down, PointerDown} ==>
      r.Success? && r.value.source == Record(s.source, e.pointers) && r.value.pointerIndex == 0
    ensures e.Count() <= 2 && e.action == Move && r.Success? ==>
      && r.value.distance == Record(s.distance, e.pointers)
      && r.value.source == r.value.distance
      && r.value.temp == Solve(p, s.source, s.pointerIndex, r.value.distance, e.Count(), s.temp)
      && r.value.matrix == PostConcat(s.matrix, r.value.temp)
      && r.value.notified == s.notified + (if s.listener then [Notice(r.value.matrix, s.readout, s.source)] else [])
    ensures e.Count() <= 2 && e.action == PointerUp ==>
      r.Success? && r.value.pointerIndex == (if e.pointers[e.actionIndex].id == 0 then 2 else s.pointerIndex)
    ensures r.Success? && e.action != Move ==>
      && r.value.matrix == s.matrix && r.value.temp == s.temp
      && r.value.distance == s.distance && r.value.notified == s.notified
    ensures r.Success? && e.action !in {Down, PointerDown, Move} ==> r.value.source == s.source
    ensures r.Success? && e.action !in {Down, PointerDown, PointerUp} ==> r.value.pointerIndex == s.pointerIndex
    ensures r.Success? ==> r.value.listener == s.listener
  {
    if e.Count() > 2 then Success(s)
    else
      match e.action
      case Down => Success(SetTransformations(p, OnDown(s, e.pointers)))
      case PointerDown => Success(SetTransformations(p, OnDown(s, e.pointers)))
      case Move =>
        (match OnMove(p, s, e.pointers)
         case Success(d) => Success(SetTransformations(p, d))
         case Failure(f) => Failure(f))
      case PointerUp => Success(SetTransformations(p, OnPointerUp(s, e)))
      case _ => Success(SetTransformations(p, s))
  }

  /** Every accepted event keeps the detector valid. */
  lemma StepPreservesValid(p: Platform, s: Detector, e: Event)
    requires Valid(p, s) && WellFormed(e)
    requires Step(p, s, e).Success?
    ensures Valid(p, Step(p, s, e).value)
  {
  }

  /**
   * On a valid detector the solver's bounds check fails exactly for a
   * two-pointer move while the offset is at slot 1.
   */
  lemma StepFailsExactly(p: Platform, s: Detector, e: Event)
    requires Valid(p, s) && WellFormed(e)
    ensures Step(p, s, e).Failure? <==> e.action == Move && e.Count() == 2 && s.pointerIndex == 2
  {
  }

  /** An accepted move notifies exactly once, with the updated matrix, iff a listener is registered. */
  lemma MoveNotifiesOnce(p: Platform, s: Detector, e: Event)
    requires WellFormed(e) && e.action == Move && e.Count() <= 2
    requires Step(p, s, e).Success?
    ensures |Step(p, s, e).value.notified| == |s.notified| + (if s.listener then 1 else 0)
    ensures s.listener ==> Step(p, s, e).value.notified[|s.notified|].matrix == Step(p, s, e).value.matrix
  {
  }

  /**
   * Inside the callback the readouts and the reference buffer are stale: on
   * a valid detector the listener is handed the updated matrix while
   * `translate`, `scale` and `angle` still decompose the matrix before the
   * move, and `source` still holds the reference positions the move was
   * solved from.
   */
  lemma ListenerSeesStaleReadouts(p: Platform, s: Detector, e: Event)
    requires Valid(p, s) && WellFormed(e) && e.action == Move && e.Count() <= 2
    requires Step(p, s, e).Success? && s.listener
    ensures var r := Step(p, s, e).value;
      && r.notified[|s.notified|].matrix == r.matrix
      && r.notified[|s.notified|].readout == Decompose(p, s.matrix)
      && r.notified[|s.notified|].source == s.source
      && r.readout == Decompose(p, r.matrix)
  {
  }
}
