/**
 * The part of an Android `MotionEvent` the gesture detector reads: the masked
 * action, the reported pointers (id and position) and the action index.
 */
module Touch {

  /** One reported pointer: its stable id and its (x, y) position. */
  datatype Pointer = Pointer(id: int, x: real, y: real)

  /**
   * The masked action. `Other` stands for every action the detector does not
   * dispatch on (cancel, outside, hover, ...), identified by its raw code;
   * it never holds the code of one of the five actions named before it.
   */
  datatype Action = Down | PointerDown | Move | PointerUp | Up | Other(code: int)

  /** `actionIndex` names the pointer a PointerUp is about. */
  datatype Event = Event(action: Action, pointers: seq<Pointer>, actionIndex: nat) {

    /** `event.pointerCount`. */
    function Count(): nat {
      |pointers|
    }
  }

  /** Some pointer in `ps` carries id `id`. */
  predicate Reports(ps: seq<Pointer>, id: int) {
    exists j :: 0 <= j < |ps| && ps[j].id == id
  }

  /**
   * At most two pointers, each with id 0 or 1 and no id twice: the pointers
   * whose positions fit the detector's two-slot buffers.
   */
  predicate ValidPointers(ps: seq<Pointer>) {
    && |ps| <= 2
    && (forall j :: 0 <= j < |ps| ==> 0 <= ps[j].id <= 1)
    && (forall i, j :: 0 <= i < j < |ps| ==> ps[i].id != ps[j].id)
  }

  /**
   * The events this model accepts: when an event is not rejected for its
   * pointer count, its pointers fit the buffers, and a PointerUp names one
   * of its pointers. Events with more than two pointers are rejected before
   * any pointer is read, so nothing is asked of them.
   *
   * This is a precondition of the model, not a platform guarantee. A pointer
   * keeps its id while it touches: with three fingers down (ids 0, 1, 2) and
   * the first two lifted, the next move reports one pointer with id 2, and
   * the detector's write to `distance[4]` throws; a finger put down after
   * that gets id 0 and the down event writes `source[4]`. Those crashes are
   * outside the model.
   */
  predicate WellFormed(e: Event) {
    && (e.Count() <= 2 ==> ValidPointers(e.pointers))
    && (e.action == PointerUp ==> e.actionIndex < e.Count())
  }
}
