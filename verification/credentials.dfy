/**
  The BCrypt library, seen from the view-models: a hash function and a
  checker, both supplied by the caller. Salting is not modelled.
*/
module Credentials {

  /** `BCrypt.checkpw` either answers or throws (on a stored hash it cannot
      parse). */
  datatype CheckOutcome = Checked(matches: bool) | Threw(message: string)

  /** `hash` stands for `BCrypt.hashpw(_, BCrypt.gensalt())`, `check` for
      `BCrypt.checkpw(password, hash)`. */
  datatype Hasher = Hasher(hash: string -> string, check: (string, string) -> CheckOutcome)

  /** The one property relied on: a password checks against its own hash. */
  ghost predicate Sound(h: Hasher)
  {
    forall p :: h.check(p, h.hash(p)) == Checked(true)
  }
}
