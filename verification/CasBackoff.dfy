/** Backoff for compare-and-swap loops: growing runs of spin hints, and now and then a yield. */
module CasBackoff {

  const SPIN_CAP: nat := 6
  const YIELD_EVERY: nat := 8
  const MAX_STEP: nat := 0xFFFF_FFFF

  function PowerOfTwo(n: nat): (p: nat)
    ensures p > 0
  {
    if n == 0 then 1 else 2 * PowerOfTwo(n - 1)
  }

  /** The spin hints of `n` calls. */
  function Hints(n: nat): nat {
    if n <= 7 then PowerOfTwo(n) - 1 else 64 * n - 321
  }

  /** The yields of `n` calls. */
  function Yields(n: nat): nat {
    if n == 0 then 0 else (n - 1) / 8
  }

  class Backoff {
    var step: nat
    /** What was done so far: calls, spin hints and yields. */
    ghost var calls: nat
    ghost var hintCount: nat
    ghost var yieldCount: nat

    ghost predicate Valid()
      reads this
    {
      && step == (if calls < MAX_STEP then calls else MAX_STEP)
      && (calls <= MAX_STEP ==> hintCount == Hints(calls) && yieldCount == Yields(calls))
    }

    constructor ()
      ensures Valid() && calls == 0
    {
      step, calls, hintCount, yieldCount := 0, 0, 0, 0;
    }

    method Snooze() returns (spins: nat, yielded: bool)
      requires Valid()
      modifies this
      ensures Valid() && calls == old(calls) + 1 && hintCount == old(hintCount) + spins
      ensures yieldCount == old(yieldCount) + if yielded then 1 else 0
      ensures old(calls) >= MAX_STEP ==> !yielded && spins == 64
    {
      var spinCount := PowerOfTwo(if step < SPIN_CAP then step else SPIN_CAP);
      spins := 0;
      for i := 0 to spinCount
        invariant spins == i && hintCount == old(hintCount) + i
        invariant step == old(step) && calls == old(calls) && yieldCount == old(yieldCount)
      {
        spins := spins + 1;
        hintCount := hintCount + 1;
      }
      yielded := step >= SPIN_CAP && step % YIELD_EVERY == 0;
      if yielded {
        yieldCount := yieldCount + 1;
      }
      step := if step < MAX_STEP then step + 1 else step;
      calls := calls + 1;
      assert PowerOfTwo(6) == 64;
    }
  }
}
