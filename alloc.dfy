/**
 * Failure injection. Every node allocation, map allocation and value copy a
 * binder operation performs may throw (std::bad_alloc from operator new, or
 * an exception from V's copy constructor). The model draws each of those
 * steps from an Allocator that lets a given number of further steps succeed
 * and fails every step after them.
 */
module Alloc {

  class Allocator {
    /** How many more steps succeed. */
    var left: nat

    constructor (n: nat)
      ensures left == n
    {
      left := n;
    }

    /** One allocation or value copy: it succeeds while steps are left, and uses one up. */
    method Acquire() returns (ok: bool)
      modifies this
      ensures ok == (old(left) > 0)
      ensures left == if ok then old(left) - 1 else old(left)
    {
      ok := left > 0;
      if ok {
        left := left - 1;
      }
    }
  }
}
