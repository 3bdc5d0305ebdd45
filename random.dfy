/** The random-number source: lodash's `_.random(lo, hi)` on integer bounds,
    taken as an oracle so that every property below holds whatever values it
    produces. */
module Random {

  /** `draw(lo, hi, n)` is the value the n-th call of `_.random` returns. */
  class Rng {
    const draw: (int, int, nat) -> int
    var calls: nat

    /** The oracle stays within the bounds it is asked for. */
    ghost predicate Valid()
    {
      forall lo, hi, n :: lo <= hi ==> lo <= draw(lo, hi, n) <= hi
    }

    constructor (draw: (int, int, nat) -> int)
      requires forall lo, hi, n :: lo <= hi ==> lo <= draw(lo, hi, n) <= hi
      ensures Valid() && this.draw == draw && calls == 0
    {
      this.draw := draw;
      calls := 0;
    }

    /** `_.random(lo, hi)`: an integer between the two bounds inclusive; like
        lodash, bounds given in the wrong order are swapped. */
    method Random(lo: int, hi: int) returns (r: int)
      requires Valid()
      modifies this
      ensures calls == old(calls) + 1
      ensures r == if lo <= hi then draw(lo, hi, old(calls)) else draw(hi, lo, old(calls))
      ensures if lo <= hi then lo <= r <= hi else hi <= r <= lo
    {
      if lo <= hi {
        r := draw(lo, hi, calls);
      } else {
        r := draw(hi, lo, calls);
      }
      calls := calls + 1;
    }
  }
}
