/** Users, the secrets stored about them, and how often a second factor may be guessed. */
module Identity {
  import opened Clock

  /** A user's UUID; it is only ever compared. */
  type UserId = int

  /** A bcrypt hash; which texts it accepts is given by a relation. */
  datatype Hash = Hash(bits: int)

  type Matcher = (Hash, string) -> bool

  const MAX_FAILED_ATTEMPTS: int := 5
  const LOCKOUT: int := 15 * MINUTE
}
