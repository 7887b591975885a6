/**
 * Whole gestures: a detector fed a stream of touch events, one `onTouchEvent`
 * call after another, and what the stream does to the matrix, the buffers
 * and the listener.
 */
module Gestures {
  import opened Outcome
  import opened Affine
  import opened Touch
  import opened GestureDetector

  /** Every event of the stream is one the model accepts (`Touch.WellFormed`). */
  predicate AllWellFormed(es: seq<Event>) {
    forall i :: 0 <= i < |es| ==> WellFormed(es[i])
  }

  /** Delivers the events in order; a fault aborts the rest of the stream. */
  function Run(p: Platform, s: Detector, es: seq<Event>): (r: Result<Detector, Fault>)
    requires AllWellFormed(es)
    ensures r.Success? ==> r.value.listener == s.listener
    decreases |es|
  {
    if |es| == 0 then Success(s)
    else
      match Step(p, s, es[0])
      case Failure(f) => Failure(f)
      case Success(d) => Run(p, d, es[1..])
  }

  /** The number of move events in the stream that are not rejected for their pointer count. */
  function AcceptedMoves(es: seq<Event>): (n: nat)
    ensures n <= |es|
  {
    if |es| == 0 then 0
    else (if es[0].action == Move && es[0].Count() <= 2 then 1 else 0) + AcceptedMoves(es[1..])
  }

  /** A valid detector stays valid along any stream that is not aborted. */
  lemma {:induction false} RunPreservesValid(p: Platform, s: Detector, es: seq<Event>)
    requires Valid(p, s) && AllWellFormed(es)
    requires Run(p, s, es).Success?
    ensures Valid(p, Run(p, s, es).value)
    decreases |es|
  {
    if |es| > 0 {
      StepPreservesValid(p, s, es[0]);
      RunPreservesValid(p, Step(p, s, es[0]).value, es[1..]);
    }
  }

  /**
   * The listener fires once per accepted move and never otherwise: the log
   * grows by exactly that many entries when a listener is registered, by
   * none when it is not, and what was logged before is kept.
   */
  lemma {:induction false} RunNotifications(p: Platform, s: Detector, es: seq<Event>)
    requires AllWellFormed(es)
    requires Run(p, s, es).Success?
    ensures |Run(p, s, es).value.notified| == |s.notified| + (if s.listener then AcceptedMoves(es) else 0)
    ensures Run(p, s, es).value.notified[..|s.notified|] == s.notified
    decreases |es|
  {
    if |es| > 0 {
      var d := Step(p, s, es[0]).value;
      RunNotifications(p, d, es[1..]);
      var r := Run(p, s, es).value;
      assert r == Run(p, d, es[1..]).value;
      assert d.notified[..|s.notified|] == s.notified;
      assert r.notified[..|s.notified|] == r.notified[..|d.notified|][..|s.notified|];
    }
  }

  /** A stream without accepted moves cannot fail and leaves the matrix and the log untouched. */
  lemma {:induction false} NoMoveNoChange(p: Platform, s: Detector, es: seq<Event>)
    requires AllWellFormed(es)
    requires AcceptedMoves(es) == 0
    ensures Run(p, s, es).Success?
    ensures Run(p, s, es).value.matrix == s.matrix
    ensures Run(p, s, es).value.notified == s.notified
    decreases |es|
  {
    if |es| > 0 {
      NoMoveNoChange(p, Step(p, s, es[0]).value, es[1..]);
    }
  }

  /**
   * The assumption under which a drag can be computed: the platform's
   * one-point solve is the translation by destination minus source.
   */
  ghost predicate OnePointIsTranslation(p: Platform) {
    forall src: seq<real>, index: int, dst: seq<real> {:trigger p.polyToPoly(src, index, dst, index, 1)} ::
      0 <= index && index + 2 <= |src| && index + 2 <= |dst| ==>
        p.polyToPoly(src, index, dst, index, 1)
          == Some(Translation(dst[index] - src[index], dst[index + 1] - src[index + 1]))
  }

  /** Under the one-point assumption, solving from slot 0 translates by the slot's displacement. */
  lemma OnePointSolve(p: Platform, src: Buffer, dst: Buffer, previous: Matrix)
    requires OnePointIsTranslation(p)
    ensures Solve(p, src, 0, dst, 1, previous) == Translation(dst[0] - src[0], dst[1] - src[1])
  {
  }

  /** A single-finger gesture: pointer 0 goes down at (x0, y0), moves to (x1, y1) and lifts. */
  function Drag(x0: real, y0: real, x1: real, y1: real): (es: seq<Event>)
    ensures AllWellFormed(es)
  {
    [Event(Down, [Pointer(0, x0, y0)], 0),
     Event(Move, [Pointer(0, x1, y1)], 0),
     Event(Up, [Pointer(0, x1, y1)], 0)]
  }

  /** Delivering `e` first and then `rest` is running `rest` on what `e` leaves. */
  lemma RunCons(p: Platform, s: Detector, e: Event, rest: seq<Event>)
    requires WellFormed(e) && AllWellFormed(rest)
    requires Step(p, s, e).Success?
    ensures AllWellFormed([e] + rest)
    ensures Run(p, s, [e] + rest) == Run(p, Step(p, s, e).value, rest)
  {
    assert ([e] + rest)[1..] == rest;
  }

  /** Delivering a single event is one `Step`. */
  lemma RunOne(p: Platform, s: Detector, e: Event)
    requires WellFormed(e)
    ensures Run(p, s, [e]) == Step(p, s, e)
  {
    assert [e][1..] == [];
  }

  /**
   * The three steps of a drag, one by one: the down records (x0, y0) in
   * slot 0 and resets the offset, the move solves from there to (x1, y1),
   * the up changes nothing but the readouts. The one notification carries
   * the final matrix alongside the readouts of the matrix before the move
   * and the reference position (x0, y0).
   */
  lemma DragSteps(p: Platform, s: Detector, x0: real, y0: real, x1: real, y1: real) returns (r: Detector)
    ensures Run(p, s, Drag(x0, y0, x1, y1)) == Success(r)
    ensures r.temp == Solve(p, s.source[0 := x0][1 := y0], 0, s.distance[0 := x1][1 := y1], 1, s.temp)
    ensures r.matrix == PostConcat(s.matrix, r.temp)
    ensures r.readout == Decompose(p, r.matrix)
    ensures r.notified == s.notified
      + (if s.listener then [Notice(r.matrix, Decompose(p, s.matrix), s.source[0 := x0][1 := y0])] else [])
  {
    var e0 := Event(Down, [Pointer(0, x0, y0)], 0);
    var e1 := Event(Move, [Pointer(0, x1, y1)], 0);
    var e2 := Event(Up, [Pointer(0, x1, y1)], 0);
    assert Drag(x0, y0, x1, y1) == [e0] + ([e1] + [e2]);
    RecordOne(s.source, Pointer(0, x0, y0));
    RecordOne(s.distance, Pointer(0, x1, y1));
    var s1 := Step(p, s, e0).value;
    assert s1.source == s.source[0 := x0][1 := y0];
    assert s1.pointerIndex == 0 && s1.matrix == s.matrix && s1.distance == s.distance && s1.temp == s.temp;
    var s2 := Step(p, s1, e1).value;
    assert s2.distance == s.distance[0 := x1][1 := y1];
    r := Step(p, s2, e2).value;
    RunCons(p, s, e0, [e1] + [e2]);
    RunCons(p, s1, e1, [e2]);
    RunOne(p, s2, e2);
  }

  /** A drag holds exactly one accepted move. */
  lemma DragHasOneMove(x0: real, y0: real, x1: real, y1: real)
    ensures AcceptedMoves(Drag(x0, y0, x1, y1)) == 1
  {
    var es := Drag(x0, y0, x1, y1);
    assert es[1..][1..][1..] == [];
    assert AcceptedMoves(es[1..][1..]) == 0;
    assert AcceptedMoves(es[1..]) == 1;
  }

  /**
   * A drag never fails, notifies exactly once when a listener is
   * registered, and the one notification carries the final matrix while
   * the readouts it sees still decompose the matrix the drag started from.
   */
  lemma DragNotifiesOnce(p: Platform, s: Detector, x0: real, y0: real, x1: real, y1: real)
    ensures Run(p, s, Drag(x0, y0, x1, y1)).Success?
    ensures var r := Run(p, s, Drag(x0, y0, x1, y1)).value;
      && |r.notified| == |s.notified| + (if s.listener then 1 else 0)
      && (s.listener ==> r.notified[|r.notified| - 1].matrix == r.matrix)
      && (s.listener ==> r.notified[|r.notified| - 1].readout == Decompose(p, s.matrix))
  {
    var r := DragSteps(p, s, x0, y0, x1, y1);
    DragHasOneMove(x0, y0, x1, y1);
    RunNotifications(p, s, Drag(x0, y0, x1, y1));
  }

  /**
   * Under the one-point assumption a drag from (x0, y0) to (x1, y1) adds
   * (x1 - x0, y1 - y0) to the matrix's translation and leaves its linear
   * coefficients as they were.
   */
  lemma DragTranslates(p: Platform, s: Detector, x0: real, y0: real, x1: real, y1: real)
    returns (r: Detector)
    requires OnePointIsTranslation(p)
    ensures Run(p, s, Drag(x0, y0, x1, y1)) == Success(r)
    ensures r.matrix == s.matrix.(transX := s.matrix.transX + (x1 - x0), transY := s.matrix.transY + (y1 - y0))
    ensures r.readout == Decompose(p, r.matrix)
  {
    r := DragSteps(p, s, x0, y0, x1, y1);
    OnePointSolve(p, s.source[0 := x0][1 := y0], s.distance[0 := x1][1 := y1], s.temp);
    PostConcatTranslation(s.matrix, x1 - x0, y1 - y0);
  }

  /**
   * Hence, from a valid detector, the drag adds (x1 - x0, y1 - y0) to the
   * translate readout and keeps scale and angle.
   */
  lemma DragKeepsScaleAndAngle(p: Platform, s: Detector, x0: real, y0: real, x1: real, y1: real)
    returns (r: Detector)
    requires Valid(p, s)
    requires OnePointIsTranslation(p)
    ensures Run(p, s, Drag(x0, y0, x1, y1)) == Success(r)
    ensures r.readout == s.readout.(translate := Point(s.readout.translate.x + (x1 - x0), s.readout.translate.y + (y1 - y0)))
  {
    r := DragTranslates(p, s, x0, y0, x1, y1);
    DecomposeTranslated(p, s.matrix, x1 - x0, y1 - y0);
  }

  /**
   * The translation gesture of the instrumented test: down at (0, 0), move
   * to (100, 50), up adds (100, 50) to the translate readout and keeps
   * scale and angle.
   */
  lemma DragByHundredFifty(p: Platform, s: Detector)
    requires Valid(p, s)
    requires OnePointIsTranslation(p)
    ensures Run(p, s, Drag(0.0, 0.0, 100.0, 50.0)).Success?
    ensures Run(p, s, Drag(0.0, 0.0, 100.0, 50.0)).value.readout
         == s.readout.(translate := Point(s.readout.translate.x + 100.0, s.readout.translate.y + 50.0))
  {
    var r := DragKeepsScaleAndAngle(p, s, 0.0, 0.0, 100.0, 50.0);
  }

  /**
   * The unit test's gesture: a detector constructed with a listener and fed
   * down (10, 10), move (100, 100), up notifies the listener exactly once,
   * with the matrix it ends with, while the readouts still show the seed.
   */
  lemma ConstructedDragNotifiesOnce(p: Platform, seed: Matrix)
    ensures Run(p, Init(p, seed, true), Drag(10.0, 10.0, 100.0, 100.0)).Success?
    ensures var r := Run(p, Init(p, seed, true), Drag(10.0, 10.0, 100.0, 100.0)).value;
      && |r.notified| == 1 && r.notified[0].matrix == r.matrix
      && r.notified[0].readout == Init(p, seed, true).readout
  {
    DragNotifiesOnce(p, Init(p, seed, true), 10.0, 10.0, 100.0, 100.0);
  }

  /**
   * Two fingers down at a and b, then both move to c and d: the solver is
   * asked for the two-point transform from (a, b) to (c, d), the result is
   * post-concatenated, and both buffers end holding (c, d).
   */
  lemma TwoFingerMove(p: Platform, s: Detector, a: Point, b: Point, c: Point, d: Point)
    returns (r: Detector)
    ensures AllWellFormed(PinchOrTurn(a, b, c, d))
    ensures Run(p, s, PinchOrTurn(a, b, c, d)) == Success(r)
    ensures r.source == r.distance == [c.x, c.y, d.x, d.y]
    ensures r.temp == Solve(p, [a.x, a.y, b.x, b.y], 0, [c.x, c.y, d.x, d.y], 2, s.temp)
    ensures r.matrix == PostConcat(s.matrix, r.temp)
  {
    var e0 := Event(PointerDown, [Pointer(0, a.x, a.y), Pointer(1, b.x, b.y)], 0);
    var e1 := Event(Move, [Pointer(0, c.x, c.y), Pointer(1, d.x, d.y)], 0);
    assert PinchOrTurn(a, b, c, d) == [e0] + [e1];
    var s1 := Step(p, s, e0).value;
    RecordBoth(s.source, a, b);
    RecordBoth(s.distance, c, d);
    assert s1.source == [a.x, a.y, b.x, b.y];
    assert s1.pointerIndex == 0;
    r := Step(p, s1, e1).value;
    assert r.distance == [c.x, c.y, d.x, d.y];
    RunCons(p, s, e0, [e1]);
    RunOne(p, s1, e1);
  }

  /** Two pointers go down at a and b, then both move, to c and d. */
  function PinchOrTurn(a: Point, b: Point, c: Point, d: Point): seq<Event> {
    [Event(PointerDown, [Pointer(0, a.x, a.y), Pointer(1, b.x, b.y)], 0),
     Event(Move, [Pointer(0, c.x, c.y), Pointer(1, d.x, d.y)], 0)]
  }

  /** Two pointers go down at a and b, pointer 0 lifts, pointer 1 moves to c. */
  function LiftPrimary(a: Point, b: Point, c: Point): seq<Event> {
    [Event(PointerDown, [Pointer(0, a.x, a.y), Pointer(1, b.x, b.y)], 0),
     Event(PointerUp, [Pointer(0, a.x, a.y), Pointer(1, b.x, b.y)], 0),
     Event(Move, [Pointer(1, c.x, c.y)], 0)]
  }

  /** The first two events of `LiftPrimary`: both slots recorded, then the offset moved to slot 1. */
  lemma DownThenLiftPrimary(p: Platform, s: Detector, a: Point, b: Point) returns (s2: Detector)
    ensures var e0 := Event(PointerDown, [Pointer(0, a.x, a.y), Pointer(1, b.x, b.y)], 0);
      WellFormed(e0) && Step(p, s, e0).Success?
      && var s1 := Step(p, s, e0).value;
      && Step(p, s1, Event(PointerUp, [Pointer(0, a.x, a.y), Pointer(1, b.x, b.y)], 0)) == Success(s2)
    ensures s2.source == [a.x, a.y, b.x, b.y] && s2.distance == s.distance
    ensures s2.pointerIndex == 2 && s2.matrix == s.matrix && s2.temp == s.temp
  {
    var e0 := Event(PointerDown, [Pointer(0, a.x, a.y), Pointer(1, b.x, b.y)], 0);
    RecordBoth(s.source, a, b);
    var s1 := Step(p, s, e0).value;
    s2 := Step(p, s1, Event(PointerUp, [Pointer(0, a.x, a.y), Pointer(1, b.x, b.y)], 0)).value;
  }

  /**
   * Pointer 0 lifts while pointer 1 stays: the offset moves to slot 1, so
   * the next single-finger move solves from pointer 1's reference position
   * at `source[2..4]` to its new position, without a fault.
   */
  lemma PrimaryLiftThenMove(p: Platform, s: Detector, a: Point, b: Point, c: Point)
    returns (r: Detector)
    ensures AllWellFormed(LiftPrimary(a, b, c))
    ensures Run(p, s, LiftPrimary(a, b, c)) == Success(r)
    ensures r.pointerIndex == 2
    ensures r.temp == Solve(p, [a.x, a.y, b.x, b.y], 2, s.distance[2 := c.x][3 := c.y], 1, s.temp)
    ensures r.matrix == PostConcat(s.matrix, r.temp)
  {
    var e0 := Event(PointerDown, [Pointer(0, a.x, a.y), Pointer(1, b.x, b.y)], 0);
    var e1 := Event(PointerUp, [Pointer(0, a.x, a.y), Pointer(1, b.x, b.y)], 0);
    var e2 := Event(Move, [Pointer(1, c.x, c.y)], 0);
    assert LiftPrimary(a, b, c) == [e0] + ([e1] + [e2]);
    var s2 := DownThenLiftPrimary(p, s, a, b);
    RecordOne(s.distance, Pointer(1, c.x, c.y));
    r := Step(p, s2, e2).value;
    assert r.distance == s.distance[2 := c.x][3 := c.y];
    RunCons(p, s, e0, [e1] + [e2]);
    var s1 := Step(p, s, e0).value;
    RunCons(p, s1, e1, [e2]);
    RunOne(p, s2, e2);
  }
}
