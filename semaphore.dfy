/**
 * The counting semaphore of the shared-memory producer/consumer program:
 * one counter word that is raised by `sem_incr` and lowered by `sem_decr`,
 * both written as compare-and-swap retry loops.
 *
 * The model is sequential: no other party changes the counter between the
 * load and the compare-and-swap, so every exchange succeeds on its first
 * attempt. "Would block in futex_wait" becomes the precondition
 * `count > 0` of Decr; the futex wake in Incr changes no state.
 */
module Semaphores {

  class Semaphore {
    var count: int

    /** The object invariant: the counter is never negative. */
    ghost predicate Valid()
      reads this
    {
      count >= 0
    }

    /** sem_init: the counter starts at the given value. */
    constructor (initval: nat)
      ensures Valid()
      ensures count == initval
    {
      count := initval;
    }

    /**
     * atomic_compare_exchange_strong: replaces the counter by `desired`
     * exactly when it still holds `expected`.
     */
    method CompareExchange(expected: int, desired: int) returns (succ: bool)
      modifies this
      ensures succ <==> old(count) == expected
      ensures count == if succ then desired else old(count)
    {
      succ := count == expected;
      if succ {
        count := desired;
      }
    }

    /** sem_incr: raises the counter by exactly one. */
    method Incr()
      requires Valid()
      modifies this
      ensures Valid()
      ensures count == old(count) + 1
    {
      var succ := false;
      while !succ
        invariant count == if succ then old(count) + 1 else old(count)
        decreases if succ then 0 else 1
      {
        var cur := count;
        succ := CompareExchange(cur, cur + 1);
        // The futex wake that follows only releases a waiter; it changes no state.
      }
    }

    /**
     * sem_decr: lowers the counter by exactly one. A caller that finds the
     * counter at zero would sleep in futex_wait until another party raises
     * it; in the sequential model that caller is excluded by the precondition.
     */
    method Decr()
      requires Valid() && count > 0
      modifies this
      ensures Valid()
      ensures count == old(count) - 1
    {
      var succ := false;
      while !succ
        invariant count == if succ then old(count) - 1 else old(count)
        decreases if succ then 0 else 1
      {
        var cur := count;
        if cur > 0 {
          succ := CompareExchange(cur, cur - 1);
        } else {
          // futex_wait(sem, 0): unreachable while the counter is positive
          assert false;
        }
      }
    }
  }
}
