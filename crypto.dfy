/** Spring's `PasswordEncoder`, kept abstract: a salted `encode` and a `matches`
    of which only `matches(x, encode(x))` is known. */
module Crypto {

  /** `encodeWith(raw, salt)` is the encoding `encode(raw)` produces when the
      encoder draws `salt`; the draw is what makes `encode` non-deterministic. */
  datatype PasswordEncoder = PasswordEncoder(
    encodeWith: (string, nat) -> string,
    matches: (string, string) -> bool)

  /** The one property assumed of the encoder. */
  ghost predicate Sound(e: PasswordEncoder) {
    forall raw, salt :: e.matches(raw, e.encodeWith(raw, salt))
  }

  /** `passwordEncoder.encode(raw)`: some salted encoding of `raw`, which
      `matches` accepts for `raw`. */
  method Encode(e: PasswordEncoder, raw: string) returns (h: string)
    requires Sound(e)
    ensures e.matches(raw, h)
    ensures exists salt: nat :: h == e.encodeWith(raw, salt)
  {
    var salt: nat :| true;
    h := e.encodeWith(raw, salt);
  }
}
