/** The `User` entity of the account domain (src/techlog_article/user/domain/user.py). */
module UserDomain {
  import opened Wrappers

  /** Stand-in for the UUID primary key: only equality and freshness matter. */
  type Id = nat

  /** Stand-in for the `datetime` of a soft delete: only its presence matters. */
  type Timestamp = nat

  /** Exactly the five fields of the entity. `hashedPassword` is meant to hold the
      hasher's output, never a plaintext; `username` and `email` are unconstrained
      strings, so any uniqueness among users is the services' business. */
  datatype User = User(
    id: Id,
    username: string,
    hashedPassword: string,
    email: string,
    deletedAt: Option<Timestamp>)
  {
    /** An absent `deletedAt` marks an active user; a present one a signed-out user. */
    predicate IsActive() {
      deletedAt.None?
    }
  }

  /** Signs the user out at `when`: the record is kept, only the deletion mark is set. */
  function SoftDelete(u: User, when: Timestamp): (d: User)
    ensures !d.IsActive() && d.deletedAt == Some(when)
    ensures d.id == u.id && d.username == u.username
    ensures d.email == u.email && d.hashedPassword == u.hashedPassword
  {
    u.(deletedAt := Some(when))
  }
}
