/** The generator the driver links against: a 128-bit state with `seed`,
    `jump` and `next`. The mixing recurrence and the jump polynomial live in
    an object file outside this model, so the algorithm is a parameter: three
    functions over the state, of which only one property is assumed by its
    users, namely that neither step ever reaches the all-zero state from a
    state that is not all zero. */
module Xoroshiro {
  import opened LittleEndian

  /** The two 64-bit halves of the generator state. */
  datatype State = State(s0: u64, s1: u64)

  /** The algorithm is undefined on the all-zero state. */
  predicate NonZero(s: State)
  {
    s.s0 != 0 || s.s1 != 0
  }

  /** What `next` returns for a state, what it leaves behind, and what `jump`
      leaves behind. */
  datatype Algorithm = Algorithm(output: State -> u64, advance: State -> State, leap: State -> State)

  /** Neither step leads from a usable state to the all-zero state. */
  ghost predicate Sound(alg: Algorithm)
  {
    && (forall s {:trigger alg.advance(s)} :: NonZero(s) ==> NonZero(alg.advance(s)))
    && (forall s {:trigger alg.leap(s)} :: NonZero(s) ==> NonZero(alg.leap(s)))
  }

  /** The state after k calls of `next`. */
  function Iterate(alg: Algorithm, s: State, k: nat): State
    decreases k
  {
    if k == 0 then s else alg.advance(Iterate(alg, s, k - 1))
  }

  /** Any number of `next` calls keeps a usable state usable. */
  lemma {:induction false} IterateNonZero(alg: Algorithm, s: State, k: nat)
    requires Sound(alg) && NonZero(s)
    ensures NonZero(Iterate(alg, s, k))
    decreases k
  {
    if k > 0 {
      IterateNonZero(alg, s, k - 1);
    }
  }

  /** The generator singleton: its state is updated in place by every call. */
  class Generator {
    var state: State
    const alg: Algorithm

    /** The state the object file starts from before `seed` is called. */
    constructor (alg: Algorithm, initial: State)
      ensures this.alg == alg && state == initial
    {
      this.alg := alg;
      state := initial;
    }

    /** `seed(a, b)` overwrites the state with (a, b). */
    method Seed(a: u64, b: u64)
      modifies this
      ensures state == State(a, b)
    {
      state := State(a, b);
    }

    /** `jump()` advances the state by the jump stride. */
    method Jump()
      requires NonZero(state)
      modifies this
      ensures state == alg.leap(old(state))
    {
      state := alg.leap(state);
    }

    /** `next()` returns the word for the current state and steps it once. */
    method Next() returns (v: u64)
      requires NonZero(state)
      modifies this
      ensures v == alg.output(old(state))
      ensures state == alg.advance(old(state))
    {
      v := alg.output(state);
      state := alg.advance(state);
    }
  }
}
