/**
 * The bcrypt primitive as the plugin sees it from outside. Its internals are not
 * modelled: a digest is whatever `hash` yields for a plaintext and a salt, and
 * `compare` is an oracle. Every call is asynchronous and settles once, either
 * resolved with a value or rejected.
 */
module Bcrypt {

  /** How one asynchronous call settles. */
  datatype Outcome<T> = Done(value: T) | Failed

  /** A salt as `genSalt(rounds)` produces it: it records its cost and carries random bits. */
  datatype Salt = Salt(rounds: int, nonce: nat)

  /** The two calls made after salt generation: `hash(plaintext, salt)` and `compare(plaintext, digest)`. */
  datatype Primitive = Primitive(
    hash: (string, Salt) -> Outcome<string>,
    compare: (string, string) -> Outcome<bool>)

  /**
   * `genSalt(rounds)`. The random source is a parameter: `draw` is the random
   * value this call obtained, or the failure it met.
   */
  function GenSalt(rounds: int, draw: Outcome<nat>): (salt: Outcome<Salt>)
    ensures salt.Done? <==> draw.Done?
    ensures salt.Done? ==> salt.value.rounds == rounds
  {
    match draw
    case Failed => Failed
    case Done(nonce) => Done(Salt(rounds, nonce))
  }

  /**
   * What bcrypt guarantees of a digest it produced: it is a non-empty string
   * and it compares true against its own plaintext.
   */
  ghost predicate Sound(b: Primitive) {
    forall plain, salt ::
      b.hash(plain, salt).Done? ==>
        b.hash(plain, salt).value != "" && b.compare(plain, b.hash(plain, salt).value) == Done(true)
  }
}
