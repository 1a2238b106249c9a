/**
 * The password hasher and the token service, as opaque functions the handlers call. What they
 * compute (bcrypt with 12 rounds, a JWT signed with the server secret that expires after
 * seven days) is outside this model; the handlers only pass values to them and act on what
 * comes back.
 */
module AuthUtils {
  import opened Options

  datatype Oracles = Oracles(
    /** `hashPassword(password)`: the digest stored for a new user. */
    hashPassword: string -> string,
    /** `verifyPassword(password, digest)`. */
    verifyPassword: (string, string) -> bool,
    /** `generateToken(userId)`. */
    generateToken: int -> string,
    /** `verifyToken(token)`: the `userId` the token carries, or `None` when `jwt.verify`
        throws (bad signature, malformed, expired). */
    verifyToken: string -> Option<int>)
}
