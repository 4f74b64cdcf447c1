/** Identities of info items and topics, and the counter that issues new ones. */
module Ids {

  /** An id is either one the generator issued (a number, as the counter
      generator returns) or a key a caller supplied (a string such as
      "AaBbCcDd01"). The two kinds never compare equal, as a number and a
      string never do under `===`. */
  datatype Id = Generated(n: nat) | Named(key: string)

  /** True when `id`, if it is a generated one, was issued before the
      generator reached `next`. */
  predicate IssuedBefore(id: Id, next: nat) {
    id.Generated? ==> id.n < next
  }

  /** The sequential id generator installed in place of `Random`: a counter
      that starts at 1 and hands out its current value before incrementing. */
  class IdGen {
    var next: nat

    constructor ()
      ensures next == 1
    {
      next := 1;
    }

    /** Issues a new id; every later id is strictly greater. */
    method NewId() returns (id: Id)
      modifies this
      ensures id == Generated(old(next))
      ensures next == old(next) + 1
      ensures IssuedBefore(id, next) && !IssuedBefore(id, old(next))
    {
      id := Generated(next);
      next := next + 1;
    }
  }
}
