/**
 * The pill dispenser box: a stack of pills and an animation lock. A click on "Dispense" is
 * accepted only when the box holds a pill and no animation is running; it starts the animation,
 * notifies the caller (`onDispense`) and schedules a completion step that removes the pill and
 * releases the lock. The completion's delay is not modelled, only its order after the click.
 */
module DispenserBox {

  /** The number of pills a box starts with. */
  const InitialPills: int := 5

  /** Pill diameter and the gap between stacked pills, in pixels. */
  const PillSize: int := 20
  const Spacing: int := 4

  /** The events a box reacts to: a click on its button, or its scheduled completion firing. */
  datatype UiEvent = Click | TimerFires

  class Box {
    var pills: int
    var animating: bool
    /** How many times the box has called its `onDispense` callback. */
    var dispenseCalls: nat
    /** Completion steps scheduled with `setTimeout` that have not run yet. */
    ghost var pending: nat

    /**
     * The box's invariant: the count stays within [0, 5], at most one completion is pending
     * and exactly while the box animates, a pending completion always has a pill to remove,
     * and every callback is accounted for by a pill removed or about to be removed.
     */
    ghost predicate Valid()
      reads this
    {
      && 0 <= pills <= InitialPills
      && pending == (if animating then 1 else 0)
      && (animating ==> pills >= 1)
      && dispenseCalls == InitialPills - pills + pending
    }

    /** A new box holds five pills and is idle. */
    constructor ()
      ensures Valid()
      ensures pills == InitialPills && !animating && pending == 0 && dispenseCalls == 0
    {
      pills := InitialPills;
      animating := false;
      dispenseCalls := 0;
      pending := 0;
    }

    /** The button's `disabled` flag. */
    predicate ButtonDisabled()
      reads this
    {
      pills == 0 || animating
    }

    /**
     * The click handler: ignored when the box is empty or animating (exactly when the button
     * is disabled); otherwise it locks the box, schedules the completion and calls
     * `onDispense` once, leaving the count as it was.
     */
    method Dispense() returns (accepted: bool)
      requires Valid()
      modifies this
      ensures Valid()
      ensures accepted == !old(ButtonDisabled())
      ensures accepted ==>
        && animating && pills == old(pills)
        && pending == old(pending) + 1
        && dispenseCalls == old(dispenseCalls) + 1
      ensures !accepted ==> unchanged(this)
    {
      if pills == 0 || animating {
        return false;
      }
      animating := true;
      pending := pending + 1;
      dispenseCalls := dispenseCalls + 1;
      accepted := true;
    }

    /** The scheduled completion: one pill fewer, and the lock released. */
    method FinishAnimation()
      requires Valid() && pending > 0
      modifies this
      ensures Valid()
      ensures pills == old(pills) - 1 && !animating && pending == old(pending) - 1
      ensures dispenseCalls == old(dispenseCalls)
    {
      pills := pills - 1;
      animating := false;
      pending := pending - 1;
    }

    /**
     * The `bottom` offsets of the rendered pills, index 0 at the top of the stack. Exactly
     * `pills` are rendered, and pill i keeps the slot (pills - i - 1) * 24 of a gap-free
     * stack. While the box is idle the lowest pill rests on the floor. While it animates,
     * the lowest pill has dropped to -20, fully below the floor, and is the only pill there.
     * The others keep their slots, so the lowest resting pill is 24 px up and the floor
     * slot stays empty until the completion removes the pill.
     */
    function PillBottoms(): (r: seq<int>)
      reads this
      requires Valid()
      ensures |r| == pills
      ensures forall i :: 0 <= i < |r| ==> (r[i] < 0 <==> animating && i == |r| - 1)
      ensures animating ==> r[|r| - 1] == -PillSize
      ensures forall i :: 0 <= i < |r| && r[i] >= 0 ==> r[i] == (pills - i - 1) * (PillSize + Spacing)
      ensures !animating && |r| > 0 ==> r[|r| - 1] == 0
      ensures animating && |r| >= 2 ==> r[|r| - 2] == PillSize + Spacing
      ensures forall i, j :: 0 <= i < j < |r| && r[j] >= 0 ==> r[i] - r[j] == (j - i) * (PillSize + Spacing)
    {
      var n, dropping := pills, animating;
      seq(n, idx requires 0 <= idx < n => PillBottom(n, dropping, idx))
    }
  }

  /** The `bottom` offset of pill `idx` out of `n`. */
  function PillBottom(n: int, dropping: bool, idx: int): int {
    if idx == n - 1 && dropping then -PillSize else (n - idx - 1) * (PillSize + Spacing)
  }

  /**
   * A session of clicks and timer firings (a firing does something only when a completion is
   * pending, which is exactly while the box animates). However
   * the events interleave, the box calls `onDispense` at most once per pill it held and not
   * already on its way out, and keeps its invariant.
   */
  method RunSession(box: Box, events: seq<UiEvent>) returns (accepted: nat)
    requires box.Valid()
    modifies box
    ensures box.Valid()
    ensures accepted == box.dispenseCalls - old(box.dispenseCalls)
    ensures accepted <= old(box.pills) - old(box.pending)
  {
    accepted := 0;
    for k := 0 to |events|
      invariant box.Valid()
      invariant accepted == box.dispenseCalls - old(box.dispenseCalls)
      invariant accepted + box.pills - box.pending <= old(box.pills) - old(box.pending)
    {
      match events[k]
      case Click =>
        var ok := box.Dispense();
        if ok {
          accepted := accepted + 1;
        }
      case TimerFires =>
        if box.animating {
          box.FinishAnimation();
        }
    }
  }

  /**
   * Clicking and letting each animation finish, a new box dispenses exactly five times and
   * then disables its button.
   */
  method EmptyBox() returns (box: Box, calls: nat)
    ensures box.Valid() && calls == InitialPills && box.dispenseCalls == calls
    ensures box.pills == 0 && box.ButtonDisabled()
  {
    box := new Box();
    calls := 0;
    while !box.ButtonDisabled()
      invariant box.Valid() && !box.animating
      invariant calls == box.dispenseCalls == InitialPills - box.pills
      decreases box.pills
    {
      var ok := box.Dispense();
      calls := calls + 1;
      box.FinishAnimation();
    }
  }
}
