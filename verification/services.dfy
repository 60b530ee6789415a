/** The account use cases of src/techlog_article/user/application/services.py.
    Each one is a pure function of the store it reads and returns what it answers
    together with the port calls it issues, in order; the store after a request is
    `Replay` of those calls. The password hasher is a parameter, assumed only to be
    deterministic and total, and not even injective. */
module AccountServices {
  import opened Wrappers
  import opened UserDomain
  import opened Ports
  import opened UserStore

  /** The detail of the 400 response of both duplicate checks. */
  const DuplicateDetail := "A user with the same username or email already exists"

  /** What a use case answers: success (no body), a 400 with a detail, or an
      unhandled fault that reaches the host runtime. */
  datatype Reply = Done | BadRequest(detail: string) | Fault

  datatype Run = Run(reply: Reply, calls: seq<PortCall>)

  /** Outcome of the duplicate check: whether it found a clash, and the lookups it made. */
  datatype Check = Check(found: bool, calls: seq<PortCall>)

  /** `_userinfo_exists`: the username lookup first, the email lookup only when the
      username lookup misses; it reports a clash iff either lookup hits, and the
      verdict is the answer of the last lookup made. */
  function UserinfoExists(s: Store, username: string, email: string): (r: Check)
    ensures r.found <==> UsernameTaken(s, username) || EmailTaken(s, email)
    ensures 1 <= |r.calls| <= 2 && r.calls[0] == CheckByUsername(username)
    ensures |r.calls| == 2 <==> !UsernameTaken(s, username)
    ensures |r.calls| == 2 ==> r.calls[1] == CheckByEmail(email)
    ensures r.found == Answer(s, r.calls[|r.calls| - 1])
    ensures Writes(r.calls) == []
  {
    var byName := CheckByUsername(username);
    if Answer(s, byName) then Check(true, [byName])
    else
      var byEmail := CheckByEmail(email);
      Check(Answer(s, byEmail), [byName, byEmail])
  }

  /** `sign_up`: on a clash a 400 and no write; otherwise exactly one `create_user`,
      carrying the given username and email and the HASH of the password. */
  function SignUp(s: Store, dto: SignUpDTO, hash: string -> string): (r: Run)
    ensures r.reply == Done || r.reply == BadRequest(DuplicateDetail)
    ensures r.reply.BadRequest? <==> UsernameTaken(s, dto.username) || EmailTaken(s, dto.email)
    ensures r.reply.BadRequest? ==> Writes(r.calls) == []
    ensures r.reply.BadRequest? ==> r.calls == UserinfoExists(s, dto.username, dto.email).calls
    ensures r.reply == Done ==>
      Writes(r.calls) == [CreateUser(CreateUserDTO(dto.username, hash(dto.password), dto.email))]
    ensures r.reply == Done ==>
      r.calls[..|r.calls| - 1] == UserinfoExists(s, dto.username, dto.email).calls
      && r.calls[|r.calls| - 1] == CreateUser(CreateUserDTO(dto.username, hash(dto.password), dto.email))
    ensures |r.calls| > 0 && r.calls[0] == CheckByUsername(dto.username)
  {
    var check := UserinfoExists(s, dto.username, dto.email);
    if check.found then
      Run(BadRequest(DuplicateDetail), check.calls)
    else
      var create := CreateUser(CreateUserDTO(dto.username, hash(dto.password), dto.email));
      WritesAppend(check.calls, [create]);
      Run(Done, check.calls + [create])
  }

  /** `sign_out`: one soft delete keyed by the user id and nothing else; the store is
      not even read, so no uniqueness check is made. */
  function SignOut(userId: Id): (r: Run)
    ensures r.reply == Done
    ensures Writes(r.calls) == [DeleteUserAuth(userId)]
    ensures forall c :: c in r.calls ==> c.IsWrite()
  {
    Run(Done, [DeleteUserAuth(userId)])
  }

  /** Password handling of `update_account` with the falsy case read as "not supplied":
      only a supplied, non-empty password is written, and what is written is its hash. */
  function PasswordPatch(password: Option<string>, hash: string -> string): (p: Option<string>)
    ensures p.Some? <==> password.Some? && password.value != ""
    ensures p.Some? ==> p.value == hash(password.value)
  {
    if password.Some? && password.value != "" then Some(hash(password.value)) else None
  }

  /** The partial update `update_account` sends for a request. The out-port's update
      DTO is assumed to take the request's `password` key as the new password hash. */
  function UpdateFor(dto: UpdateAccountDTO, hash: string -> string): (u: UpdateUserDTO)
    ensures u.username == Some(dto.username) && u.email == Some(dto.email)
    ensures u.hashedPassword == PasswordPatch(dto.password, hash)
  {
    UpdateUserDTO(Some(dto.username), Some(dto.email), PasswordPatch(dto.password, hash))
  }

  /** `update_account`: the same duplicate check as sign-up on the PROPOSED username and
      email, without excluding the caller's own record; on a clash a 400 and no write,
      otherwise exactly one partial `update_user` for the caller's id.
      The source builds the update from `UpdateAccountDTO.dict(exclude_none=True)`, a call
      on the class rather than on the request, which cannot succeed; this function models
      the evident intent, the non-`None` fields of the request (see module AsWritten),
      except that an empty password is dropped too, as `PasswordPatch` says. */
  function UpdateAccount(s: Store, dto: UpdateAccountDTO, hash: string -> string): (r: Run)
    ensures r.reply == Done || r.reply == BadRequest(DuplicateDetail)
    ensures r.reply.BadRequest? <==> UsernameTaken(s, dto.username) || EmailTaken(s, dto.email)
    ensures r.reply.BadRequest? ==> Writes(r.calls) == []
    ensures r.reply.BadRequest? ==> r.calls == UserinfoExists(s, dto.username, dto.email).calls
    ensures r.reply == Done ==> Writes(r.calls) == [UpdateUser(dto.userId, UpdateFor(dto, hash))]
    ensures r.reply == Done ==>
      r.calls[..|r.calls| - 1] == UserinfoExists(s, dto.username, dto.email).calls
      && r.calls[|r.calls| - 1] == UpdateUser(dto.userId, UpdateFor(dto, hash))
    ensures |r.calls| > 0 && r.calls[0] == CheckByUsername(dto.username)
  {
    var check := UserinfoExists(s, dto.username, dto.email);
    if check.found then
      Run(BadRequest(DuplicateDetail), check.calls)
    else
      var update := UpdateUser(dto.userId, UpdateFor(dto, hash));
      WritesAppend(check.calls, [update]);
      Run(Done, check.calls + [update])
  }
}
