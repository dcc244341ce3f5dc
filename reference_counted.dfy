/**
  reference_counted.h: the counter (`Refcount`) and the block that carries it
  beside the value (`Refcounted<T>`).

  The count is a plain integer: the atomics and memory orderings of the source
  only matter under concurrency, which this model leaves out.
*/
module ReferenceCounted {

  class Refcount {
    var count: int

    /** A fresh counter holds 1: its creator's reference. */
    constructor ()
      ensures count == 1
    {
      count := 1;
    }

    /** Adds one reference. */
    method Inc()
      modifies this
      ensures count == old(count) + 1
    {
      count := count + 1;
    }

    /** Whether the caller holds the only reference; changes nothing. */
    method IsOne() returns (one: bool)
      ensures one <==> count == 1
    {
      one := count == 1;
    }

    /** Gives up one reference and reports whether it was the last one, in which
        case the caller must destroy the block and not use this counter again.
        With `expectOne`, a last reference is reported without touching the
        counter. */
    method Dec(expectOne: bool) returns (zero: bool)
      requires count > 0
      modifies this
      ensures zero <==> old(count) == 1
      ensures count == if expectOne && old(count) == 1 then old(count) else old(count) - 1
    {
      if expectOne {
        var one := IsOne();
        if one {
          return true;
        }
      }
      var before := count;
      count := count - 1;
      zero := before == 1;
    }
  }

  /** A block holding a counter and the `nested` value side by side. The
      allocator a block carries is not modelled. */
  class Refcounted<T> {
    const refcount: Refcount
    var nested: T

    constructor (v: T)
      ensures fresh(refcount) && refcount.count == 1 && nested == v
    {
      refcount := new Refcount();
      nested := v;
    }
  }

}
