/**
 * The `ActionsFrozen` resource of src/game/movement.rs: a reentrant counter
 * that suspends player input while a dialogue, a cut-scene or the paper is
 * on screen. Every handler that reacts to the player checks `IsFrozen`
 * first, except typing on the paper and closing it, which serve the frozen
 * paper view. Each handler that starts such a scene freezes once, and the
 * matching end unfreezes once.
 */
module Movement {
  import opened Common

  class ActionsFrozen {
    /** `freeze_count: usize`; never negative, as `nat`. */
    var freezeCount: nat

    /** `ActionsFrozen::default()`: nothing holds the game frozen. */
    constructor ()
      ensures freezeCount == 0 && !IsFrozen()
    {
      freezeCount := 0;
    }

    /**
     * Re-inserting the default resource on entering the Difficulty screen
     * forgets every outstanding freeze.
     */
    method Reset()
      modifies this
      ensures freezeCount == 0 && !IsFrozen()
    {
      freezeCount := 0;
    }

    /** One more scene holds the game frozen. */
    method Freeze()
      modifies this
      ensures freezeCount == old(freezeCount) + 1
      ensures IsFrozen()
    {
      freezeCount := freezeCount + 1;
    }

    /**
     * One scene ended. The `usize` subtraction underflows (and panics in a
     * debug build) at zero, so the caller must hold a freeze.
     */
    method Unfreeze()
      requires freezeCount > 0
      modifies this
      ensures freezeCount == old(freezeCount) - 1
      ensures IsFrozen() <==> old(freezeCount) > 1
    {
      freezeCount := freezeCount - 1;
    }

    /**
     * A sequence of calls made on this counter, one after the other. Each
     * call is the method above, so the counter ends where `Run` says; the
     * calls must not underflow.
     */
    method Perform(ops: seq<Op>)
      requires Run(freezeCount, ops).Some?
      modifies this
      ensures Run(old(freezeCount), ops) == Some(freezeCount)
    {
      for i := 0 to |ops|
        invariant Run(freezeCount, ops[i..]) == Run(old(freezeCount), ops)
      {
        assert ops[i..][1..] == ops[i + 1..];
        match ops[i]
        case FreezeOp => Freeze();
        case UnfreezeOp => Unfreeze();
      }
    }

    predicate IsFrozen()
      reads this
    {
      freezeCount > 0
    }
  }

  /*
   * The counter over a whole run of calls. `Run` replays a sequence of
   * `freeze`/`unfreeze` calls on a starting count; `None` means some
   * `unfreeze` would have underflowed.
   */

  datatype Op = FreezeOp | UnfreezeOp

  /** One call, as `Freeze` and `Unfreeze` perform it. */
  function Step(count: nat, op: Op): (r: Option<nat>)
    ensures op == FreezeOp ==> r == Some(count + 1)
    ensures op == UnfreezeOp ==> (r.None? <==> count == 0) && (r.Some? ==> r.value + 1 == count)
  {
    match op
    case FreezeOp => Some(count + 1)
    case UnfreezeOp => if count == 0 then None else Some(count - 1)
  }

  function Run(count: nat, ops: seq<Op>): (r: Option<nat>)
    decreases |ops|
  {
    if ops == [] then Some(count)
    else
      match Step(count, ops[0])
      case None => None
      case Some(c) => Run(c, ops[1..])
  }

  function Repeat(op: Op, n: nat): (r: seq<Op>)
    ensures |r| == n && forall i :: 0 <= i < n ==> r[i] == op
  {
    if n == 0 then [] else [op] + Repeat(op, n - 1)
  }

  /** Running `a` then `b` is running `a + b`. */
  lemma {:induction false} RunAppend(count: nat, a: seq<Op>, b: seq<Op>)
    ensures Run(count, a + b) == match Run(count, a) case None => None case Some(c) => Run(c, b)
    decreases |a|
  {
    if a != [] {
      assert (a + b)[0] == a[0];
      assert (a + b)[1..] == a[1..] + b;
      match Step(count, a[0])
      case None =>
      case Some(c) => RunAppend(c, a[1..], b);
    } else {
      assert a + b == b;
    }
  }

  /** A freeze directly followed by an unfreeze leaves the count as it was. */
  lemma FreezeUnfreezeRestores(count: nat, before: seq<Op>, after: seq<Op>)
    ensures Run(count, before + [FreezeOp, UnfreezeOp] + after) == Run(count, before + after)
  {
    RunAppend(count, before + [FreezeOp, UnfreezeOp], after);
    RunAppend(count, before, [FreezeOp, UnfreezeOp]);
    RunAppend(count, before, after);
    match Run(count, before)
    case None =>
    case Some(c) =>
      assert Run(c, [FreezeOp, UnfreezeOp]) == Run(c + 1, [UnfreezeOp]) == Run(c, []);
  }

  /** `n` freezes raise the count by `n`. */
  lemma {:induction false} RunFreezes(count: nat, n: nat)
    ensures Run(count, Repeat(FreezeOp, n)) == Some(count + n)
    decreases n
  {
    if n > 0 {
      RunFreezes(count + 1, n - 1);
    }
  }

  /** `k` unfreezes lower the count by `k`, and fail when `k` exceeds it. */
  lemma {:induction false} RunUnfreezes(count: nat, k: nat)
    ensures Run(count, Repeat(UnfreezeOp, k)) == if k <= count then Some(count - k) else None
  {
    if k > 0 && count > 0 {
      RunUnfreezes(count - 1, k - 1);
    }
  }

  /**
   * After `n` freezes from the default, the game stays frozen through the
   * first `n - 1` unfreezes and is released exactly by the `n`-th; one more
   * would underflow.
   */
  lemma FrozenUntilAllUnfrozen(n: nat, k: nat)
    ensures Run(0, Repeat(FreezeOp, n) + Repeat(UnfreezeOp, k)) == if k <= n then Some(n - k) else None
    ensures k < n ==> Run(0, Repeat(FreezeOp, n) + Repeat(UnfreezeOp, k)).value > 0
    ensures Run(0, Repeat(FreezeOp, n) + Repeat(UnfreezeOp, n)) == Some(0)
  {
    RunAppend(0, Repeat(FreezeOp, n), Repeat(UnfreezeOp, k));
    RunAppend(0, Repeat(FreezeOp, n), Repeat(UnfreezeOp, n));
    RunFreezes(0, n);
    RunUnfreezes(n, k);
    RunUnfreezes(n, n);
  }
}
