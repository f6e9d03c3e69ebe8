/**
 * `once(fn)`: a wrapper that runs `fn` on its first call only, behind a
 * boolean latch `called`. The effect of `fn` is modelled by counting its
 * invocations.
 */
module OnceLatch {

  class Once {
    /** The closure's `called` flag. */
    var called: bool
    /** How many times the wrapped function has run. */
    var invocations: nat

    /** The wrapped function has run exactly when the latch is set, and then once. */
    ghost predicate Valid()
      reads this
    {
      invocations == if called then 1 else 0
    }

    constructor ()
      ensures !called && invocations == 0
      ensures Valid()
    {
      called := false;
      invocations := 0;
    }

    /** One call of the returned function; `ran` tells whether `fn` ran. */
    method Call() returns (ran: bool)
      requires Valid()
      modifies this
      ensures Valid()
      ensures ran == !old(called)
      ensures called
      ensures invocations == old(invocations) + (if ran then 1 else 0)
    {
      ran := !called;
      if !called {
        called := true;
        invocations := invocations + 1;
      }
    }
  }

  /** Calling the wrapper `n` times runs the wrapped function once, or never when `n` is 0. */
  method CallMany(n: nat) returns (invocations: nat)
    ensures invocations == if n == 0 then 0 else 1
  {
    var o := new Once();
    var i := 0;
    while i < n
      invariant 0 <= i <= n
      invariant o.Valid()
      invariant o.called == (i > 0)
    {
      var _ := o.Call();
      i := i + 1;
    }
    invocations := o.invocations;
  }
}
