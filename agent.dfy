/** The elementary magnetic moment of the lattice: one spin, +1 or -1,
    stored in a signed 8-bit field and negated in place by `Flip`. */
module Agent {

  /** The Rust field type `i8`. */
  newtype i8 = x: int | -128 <= x < 128

  const I8Min: i8 := -128

  /** The only values a spin may take. */
  predicate IsSpin(s: int) {
    s == 1 || s == -1
  }

  /** The value `Flip` stores: the negation of the old spin. Defined for every
      `i8` whose negation is again an `i8`. */
  function Flipped(s: i8): (r: i8)
    requires s != I8Min
    ensures r as int == -(s as int)
    ensures IsSpin(s as int) ==> IsSpin(r as int) && r != s
  {
    -s
  }

  /** Flipping twice gives back the original spin. */
  lemma FlippedTwice(s: i8)
    requires s != I8Min
    ensures Flipped(s) != I8Min && Flipped(Flipped(s)) == s
  {
  }

  class SpinAgent {
    var spin: i8

    ghost predicate Valid()
      reads this
    {
      IsSpin(spin as int)
    }

    /** `up` is the outcome of the fair coin the agent is created with. */
    constructor (up: bool)
      ensures Valid()
      ensures spin == if up then 1 else -1
    {
      spin := if up then 1 else -1;
    }

    /** Negates the spin in place. The negation of -128 does not fit in an
        `i8`, so that value is excluded; a valid spin is never -128. */
    method Flip()
      requires spin != I8Min
      modifies this
      ensures spin == Flipped(old(spin))
      ensures old(Valid()) ==> Valid() && spin != old(spin)
    {
      spin := -spin;
    }
  }
}
