/** The PasswordEncoder bean shared by UserService and TokenService: a
    one-way `encode` and a `matches` check. The salted hash itself is not
    modelled; what the services rely on is its soundness law. */
module Passwords {
  datatype PasswordEncoder = PasswordEncoder(
    encode: string -> string,
    matches: (string, string) -> bool)

  /** The law every encoder used here satisfies: a raw string matches its
      own encoding. */
  ghost predicate Sound(pe: PasswordEncoder)
  {
    forall raw {:trigger pe.encode(raw)} :: pe.matches(raw, pe.encode(raw))
  }
}
