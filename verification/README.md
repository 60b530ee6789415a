# Account service of techlog-article-service, in Dafny

This project models the user-account core of the techlog article service: the
`User` entity with its soft-delete mark, and the three account use cases
(sign-up, update-account, sign-out) that run over an abstract user store through
lookup and write ports. The property that matters is the account invariant: among
active (not signed-out) users, usernames are unique and emails are unique. The
services enforce it with a two-step duplicate check before writing.

Layout, one module per concept:

- `wrappers.dfy` — `Wrappers.Option`, standing for a nullable field.
- `user.dfy` — `UserDomain`: the `User` record and `SoftDelete`.
- `ports.dfy` — `Ports`: the request DTOs, the DTOs handed to the persistence
  ports, and `PortCall`, one call through an outbound port. Use cases return the
  trace of calls they issue, so call order and call counts can be stated.
- `store.dfy` — `UserStore`: the store as an immutable `map<Id, User>` plus an id
  supply, what each port call does to it (`Apply`, `Replay`), the two lookups,
  and the invariant `UniqueAmongActive`.
- `services.dfy` — `AccountServices`: `_userinfo_exists`, `sign_up`, `sign_out`,
  `update_account`, each a pure function returning the verdict or reply, and the calls.
- `lifecycle.dfy` — `AccountLifecycle`: the store effect of each use case, and the
  invariant kept by each request and by any sequence of requests.
- `as_written.dfy` — `AsWritten`: two defects of `update_account` modelled as
  written (see Findings).

Modelling choices:

- The persistence adapters' code is not part of this model. What each port
  call does to the store is ASSUMED, as follows. The uniqueness results rest on
  all of these assumptions, not only on the lookup one.
  - A lookup hit is ASSUMED to mean "some active user (`deletedAt` absent) has
    exactly this username (or email)". Strings are compared exactly, so a store
    collation or case folding is not represented.
  - `create_user` is ASSUMED to store one active record under a fresh id, with
    exactly the given username, email and password hash
    (`AccountLifecycle.SignUpAddsOneUser`, `AccountLifecycle.SignUpKeepsInvariant`).
  - `delete_user_auth` belongs to a different adapter. It is ASSUMED to set
    `deleted_at` on the same `User` record the lookups read, which is the
    sign-out meaning the field description in `user.py` gives it. The three
    sign-out lemmas of `AccountLifecycle` rest on this.
  - `update_user` is ASSUMED to write the present fields of its update onto the
    record with the given id (`UserStore.Patch`).
  - No port call is ASSUMED to raise.
- The out-port's update DTO is not part of this model either. Once line 112 of
  `services.py` builds the update from the request (`dto.dict(exclude_none=True)`),
  it would pass the request's non-`None` keys to it: `user_id`, `username`,
  `email` and `password`. The model ASSUMES that the update DTO takes the
  request's `password` key as the new password hash, and that it ignores
  `user_id`, which is already passed as a separate argument. `PasswordPatch`, the hash
  clause of `AccountLifecycle.UpdateRewritesOnlyCaller` and the second finding
  rest on this assumption.
- `hash_password` is a parameter `hash: string -> string`, shared by all
  requests. It is assumed to be deterministic and total. Nothing else is
  assumed, not even injectivity. "Never the plaintext" is stated as "the stored
  value is `hash(password)`".
- UUIDs are natural numbers drawn from a counter `nextId` in the store, so a
  created user always gets an id not yet in use.
- The clock of the soft delete is a parameter `now`.
- A raised `HTTPException` is the reply `BadRequest(detail)`, with the source's
  detail text. The TypeError of line 112 is the reply `Fault`. The ports are
  assumed never to raise, so no other fault is represented.
- The update request's DTO is not part of this model. The model chooses to
  carry a required username and email and an optional password (see "Left
  out"). The duplicate check does not exclude the caller's own record, and this
  is kept as the code does it (`AccountLifecycle.UpdateToOwnValuesRefused`).
  Under the model's choice of a required username and email, an active user who
  sends their current username and email to change only the password is
  therefore refused.
- The duplicate failure is the HTTP 400 raised at `services.py` lines 55-58 and
  102-105. The model's reply is `BadRequest(DuplicateDetail)`.

## Model

| member | source | states |
|---|---|---|
| UserDomain.SoftDelete | src/techlog_article/user/domain/user.py:14-16 | signing a user out sets the deletion mark, which makes the user inactive, and keeps id, username, email and password hash |
| UserStore.EntityAllowsDuplicates | src/techlog_article/user/domain/user.py:8-16 | a well-formed store may hold two active users with the same username and email: the entity itself does not enforce uniqueness |
| UserStore.Patch | src/techlog_article/user/application/services.py:110-113 | the partial update writes exactly the fields present in the update; absent fields, the id and the deletion mark keep their values |
| AccountServices.UserinfoExists | src/techlog_article/user/application/services.py:26-35 | reports a clash iff the username lookup or the email lookup hits; the username lookup runs first, the email lookup only when it misses; no writes |
| AccountServices.SignUp | src/techlog_article/user/application/services.py:49-66 | a 400 with the duplicate detail iff the username or email is taken, and then no write; otherwise exactly one create, issued after the duplicate check's lookups, carrying the username, the email and the hash of the password |
| AccountServices.SignOut | src/techlog_article/user/application/services.py:79-82 | succeeds with exactly one soft delete for the given id and no lookup |
| AccountServices.PasswordPatch | src/techlog_article/user/application/services.py:107-108 | the password field is written iff a non-empty password is supplied, and what is written is its hash |
| AccountServices.UpdateAccount | src/techlog_article/user/application/services.py:96-115 | a 400 iff the proposed username or email is taken, and then no write; otherwise exactly one partial update for the caller's id, issued after the duplicate check's lookups |
| AccountLifecycle.SignUpClashLeavesStore | src/techlog_article/user/application/services.py:50-58 | a sign-up with a taken username or email is refused with the duplicate detail and the store is unchanged |
| AccountLifecycle.SignUpAddsOneUser | src/techlog_article/user/application/services.py:60-66 | a successful sign-up adds one active record under a fresh id, holding the hash of the password; the store grows by one and both lookups then hit |
| AccountLifecycle.SignUpKeepsInvariant | src/techlog_article/user/application/services.py:49-66 | sign-up keeps usernames and emails unique among active users |
| AccountLifecycle.UpdateClashLeavesStore | src/techlog_article/user/application/services.py:97-105 | an update proposing a taken username or email is refused before any write |
| AccountLifecycle.UpdateToOwnValuesRefused | src/techlog_article/user/application/services.py:97-105 | the check does not exclude the caller: an active user proposing their own username or email is refused |
| AccountLifecycle.UpdateRewritesOnlyCaller | src/techlog_article/user/application/services.py:107-113 | a successful update sets the caller's username and email, replaces the hash only for a non-empty password, and changes nothing else |
| AccountLifecycle.UpdateKeepsInvariant | src/techlog_article/user/application/services.py:96-115 | update keeps usernames and emails unique among active users |
| AccountLifecycle.SignOutSoftDeletes | src/techlog_article/user/application/services.py:79-82 | sign-out keeps the record and marks it deleted at the given time; no other record and no id changes |
| AccountLifecycle.SignOutFreesUsernameAndEmail | src/techlog_article/user/domain/user.py:14-16 | once an active user signs out, lookups no longer hit on that user's username or email, though the record remains |
| AccountLifecycle.SignOutKeepsInvariant | src/techlog_article/user/application/services.py:79-82 | sign-out keeps usernames and emails unique among active users |
| AccountLifecycle.Serve | src/techlog_article/user/domain/user.py:14-16 | no sequence of requests removes a stored user: deletion is only ever soft |
| AccountLifecycle.ServeKeepsInvariant | src/techlog_article/user/application/services.py:26-115 | any sequence of sign-ups, sign-outs and updates keeps a well-formed store with unique usernames and emails among active users |
| AsWritten.UpdateAccountAsWritten | src/techlog_article/user/application/services.py:110-113 | as written, an update that passes the check ends in a fault and never writes |
| AsWritten.AsWrittenUpdateNeverWrites | src/techlog_article/user/application/services.py:110-113 | as written, no update request changes the store, while the intended use case writes once |
| AsWritten.PasswordPatchAsWritten | src/techlog_article/user/application/services.py:107-112 | once line 112 builds the update from the request, lines 107-108 as written pass an empty password on to the store unhashed |
| AsWritten.EmptyPasswordStoredInClear | src/techlog_article/user/application/services.py:107-112 | once line 112 builds the update from the request, lines 107-108 as written overwrite the stored hash with an empty plaintext password; the corrected patch leaves the stored hash alone |
| AsWritten.EmptyPasswordIsNotItsHash | src/techlog_article/user/application/services.py:107-112 | for a concrete hasher, the value written for an empty password differs from that password's hash |

## Left out

- AccountServices.UpdateAccount: requests whose username or email is `None`
  are not modelled. The request DTO is not part of this model, and how a lookup
  answers an absent value depends on adapter code that is not part of it either.
  The `None`-dropping partial update is modelled for the password, and in
  general by `UserStore.Patch`.

- The article service and its HTTP controllers: routing, parameter binding and
  the mapping of a missing article to a 404. They are outside the account core.
- `src/server.ts`: process start-up and listening, with no logic.
- The persistence adapters' code is not part of this model. Their lookups are
  given the assumed meaning above. A write keyed by an unknown id is modelled as
  affecting no row. Signing out an already signed-out user re-stamps the
  deletion time.
- The internals of `hash_password`, a library call: the hasher is a parameter.
- Password verification (that the old password stops matching and the new one
  matches after an update) needs a hasher that tells passwords apart. No such
  property of `hash_password` is assumed, so the model states only which hash is
  stored.
- The request DTOs' field validators are not part of this model. Any string is
  accepted as a username, email or password.
- async/await, dependency injection, `HTTPException` mechanics and ORM mode:
  framework plumbing with no effect on the decisions.
- The check-then-act race between concurrent requests: the model handles
  requests one at a time.
- Real datetimes and UUIDs: a deletion time is a natural number and ids come
  from a counter.

## Findings

| source | as written | input that shows it | evidently intended | confidence | as-written member | corrected member |
|---|---|---|---|---|---|---|
| src/techlog_article/user/application/services.py:112 | the partial update is built by calling `dict(exclude_none=True)` on the DTO class, with no instance, which raises a TypeError | any update whose username and email are both free | build the partial update from the request's own non-`None` fields | high; not executed | AsWritten.UpdateAccountAsWritten | AccountServices.UpdateAccount |
| src/techlog_article/user/application/services.py:107-112 | the password is hashed only when truthy, but only `None` fields are dropped from the update | password `""` (once line 112 uses the request) | a falsy password is not written, so the stored hash is never overwritten by a plaintext | medium; not executed; a request validator might reject `""`, and the update DTO is assumed to take the `password` key as the new hash | AsWritten.PasswordPatchAsWritten | AccountServices.PasswordPatch |
