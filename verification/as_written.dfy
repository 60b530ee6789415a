/** Two places where `update_account` as written departs from what it evidently means
    to do. Each is modelled as written, next to the corrected definition the rest of
    the model uses (AccountServices.UpdateAccount and AccountServices.PasswordPatch). */
module AsWritten {
  import opened Wrappers
  import opened UserDomain
  import opened Ports
  import opened UserStore
  import opened AccountServices

  /** `update_account` exactly as written. The partial update is built from
      `dict(exclude_none=True)` called on the DTO class instead of on the request: an
      instance method called without an instance raises a TypeError. So once the
      duplicate check passes the use case ends in an unhandled fault, and the
      `update_user` call is never reached. */
  function UpdateAccountAsWritten(s: Store, dto: UpdateAccountDTO, hash: string -> string): (r: Run)
    ensures r.reply.BadRequest? <==> UsernameTaken(s, dto.username) || EmailTaken(s, dto.email)
    ensures !r.reply.BadRequest? ==> r.reply == Fault
    ensures Writes(r.calls) == []
  {
    var check := UserinfoExists(s, dto.username, dto.email);
    if check.found then Run(BadRequest(DuplicateDetail), check.calls) else Run(Fault, check.calls)
  }

  /** The discrepancy: as written, no update request ever changes the store, and every
      request that passes the duplicate check faults where the intended use case
      succeeds with one write. */
  lemma AsWrittenUpdateNeverWrites(s: Store, dto: UpdateAccountDTO, hash: string -> string, now: Timestamp)
    ensures Replay(s, UpdateAccountAsWritten(s, dto, hash).calls, now) == s
    ensures !UsernameTaken(s, dto.username) && !EmailTaken(s, dto.email) ==>
      && UpdateAccountAsWritten(s, dto, hash).reply == Fault
      && UpdateAccount(s, dto, hash).reply == Done
      && |Writes(UpdateAccount(s, dto, hash).calls)| == 1
  {
    ReplayWithoutWrites(s, UpdateAccountAsWritten(s, dto, hash).calls, now);
  }

  /** The password handling of `update_account` once the partial update is taken from
      the request: the hash replaces the password only when it is truthy, but only
      `None` fields are dropped, so an empty password, falsy yet not `None`, is passed
      on to `update_user` as it is. */
  function PasswordPatchAsWritten(password: Option<string>, hash: string -> string): (p: Option<string>)
    ensures password.None? ==> p.None?
    ensures password.Some? && password.value != "" ==> p == Some(hash(password.value))
    ensures password == Some("") ==> p == Some("")
  {
    if password.Some? && password.value != "" then Some(hash(password.value)) else password
  }

  /** The discrepancy on the input `Some("")`: once line 112 builds the update from the
      request, lines 107-108 as written overwrite the stored password hash with the
      empty plaintext, whatever the hasher makes of it; the
      corrected patch leaves the stored hash as it was. */
  lemma EmptyPasswordStoredInClear(u: User, hash: string -> string)
    ensures Patch(u, UpdateUserDTO(None, None, PasswordPatchAsWritten(Some(""), hash))).hashedPassword == ""
    ensures Patch(u, UpdateUserDTO(None, None, PasswordPatch(Some(""), hash))).hashedPassword == u.hashedPassword
  {
  }

  /** A concrete instance: with a hasher that never returns the empty string, the
      value written as the "hash" is not the hash of the password supplied. */
  lemma EmptyPasswordIsNotItsHash()
    ensures var hash := (p: string) => "$h$" + p;
      && PasswordPatchAsWritten(Some(""), hash) == Some("")
      && PasswordPatchAsWritten(Some(""), hash) != Some(hash(""))
  {
    var hash := (p: string) => "$h$" + p;
    assert |hash("")| == 3;
  }
}
