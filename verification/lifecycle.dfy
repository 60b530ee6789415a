/** What the account use cases do to the user store, and the account invariant they
    keep: among active users, usernames are unique and so are emails. The invariant
    rests on the assumed meaning of a lookup hit ("an active user has this value"). */
module AccountLifecycle {
  import opened Wrappers
  import opened UserDomain
  import opened Ports
  import opened UserStore
  import opened AccountServices

  /** The record a successful sign-up creates. */
  function SignedUp(s: Store, dto: SignUpDTO, hash: string -> string): (u: User)
    ensures u.IsActive() && u.id == s.nextId
    ensures u.username == dto.username && u.email == dto.email
    ensures u.hashedPassword == hash(dto.password)
  {
    User(s.nextId, dto.username, hash(dto.password), dto.email, None)
  }

  /** A clashing sign-up answers 400 and leaves the store exactly as it was. */
  lemma SignUpClashLeavesStore(s: Store, dto: SignUpDTO, hash: string -> string, now: Timestamp)
    requires UsernameTaken(s, dto.username) || EmailTaken(s, dto.email)
    ensures SignUp(s, dto, hash).reply == BadRequest(DuplicateDetail)
    ensures Replay(s, SignUp(s, dto, hash).calls, now) == s
  {
    ReplayWithoutWrites(s, SignUp(s, dto, hash).calls, now);
  }

  /** A successful sign-up adds exactly one record, under a fresh id, active, holding the
      hash of the password; every earlier record is kept, and both lookups now hit. */
  lemma SignUpAddsOneUser(s: Store, dto: SignUpDTO, hash: string -> string, now: Timestamp)
    requires WellFormed(s)
    requires SignUp(s, dto, hash).reply == Done
    ensures var t := Replay(s, SignUp(s, dto, hash).calls, now);
      && s.nextId !in s.users
      && t.users == s.users[s.nextId := SignedUp(s, dto, hash)]
      && t.nextId == s.nextId + 1
      && |t.users| == |s.users| + 1
      && t.users[s.nextId].IsActive()
      && t.users[s.nextId].hashedPassword == hash(dto.password)
      && UsernameTaken(t, dto.username) && EmailTaken(t, dto.email)
  {
    var create := CreateUser(CreateUserDTO(dto.username, hash(dto.password), dto.email));
    ReplaySingleWrite(s, SignUp(s, dto, hash).calls, create, now);
    var t := Replay(s, SignUp(s, dto, hash).calls, now);
    assert s.nextId !in s.users;
    assert t.users.Keys == s.users.Keys + {s.nextId};
    assert t.users[s.nextId].username == dto.username;
  }

  /** A successful sign-up keeps the store well formed and the account invariant. */
  lemma SignUpKeepsInvariant(s: Store, dto: SignUpDTO, hash: string -> string, now: Timestamp)
    requires WellFormed(s) && UniqueAmongActive(s)
    ensures var t := Replay(s, SignUp(s, dto, hash).calls, now);
      WellFormed(t) && UniqueAmongActive(t)
  {
    var r := SignUp(s, dto, hash);
    if r.reply.BadRequest? {
      SignUpClashLeavesStore(s, dto, hash, now);
    } else {
      SignUpAddsOneUser(s, dto, hash, now);
      var t := Replay(s, r.calls, now);
      var n := s.nextId;
      forall a, b | a in t.users && b in t.users && a != b && t.users[a].IsActive() && t.users[b].IsActive()
        ensures t.users[a].username != t.users[b].username && t.users[a].email != t.users[b].email
      {
        if a == n {
          assert b in s.users && s.users[b].IsActive();
          assert s.users[b].username != dto.username;
          assert s.users[b].email != dto.email;
        } else if b == n {
          assert a in s.users && s.users[a].IsActive();
          assert s.users[a].username != dto.username;
          assert s.users[a].email != dto.email;
        }
      }
    }
  }

  /** A clashing update answers 400 and leaves the store exactly as it was. */
  lemma UpdateClashLeavesStore(s: Store, dto: UpdateAccountDTO, hash: string -> string, now: Timestamp)
    requires UsernameTaken(s, dto.username) || EmailTaken(s, dto.email)
    ensures UpdateAccount(s, dto, hash).reply == BadRequest(DuplicateDetail)
    ensures Replay(s, UpdateAccount(s, dto, hash).calls, now) == s
  {
    ReplayWithoutWrites(s, UpdateAccount(s, dto, hash).calls, now);
  }

  /** The duplicate check of an update does not exclude the caller's own record: an
      active user who proposes their current username or email is refused. */
  lemma UpdateToOwnValuesRefused(s: Store, dto: UpdateAccountDTO, hash: string -> string)
    requires dto.userId in s.users && s.users[dto.userId].IsActive()
    requires dto.username == s.users[dto.userId].username || dto.email == s.users[dto.userId].email
    ensures UpdateAccount(s, dto, hash).reply == BadRequest(DuplicateDetail)
  {
    var u := s.users[dto.userId];
    if dto.username == u.username {
      assert UsernameTaken(s, dto.username);
    } else {
      assert EmailTaken(s, dto.email);
    }
  }

  /** A successful update rewrites the caller's username and email, replaces the stored
      hash only for a non-empty password (with its hash), and touches nothing else: no
      other record, not the caller's id nor deletion mark, not the set of ids. */
  lemma UpdateRewritesOnlyCaller(s: Store, dto: UpdateAccountDTO, hash: string -> string, now: Timestamp)
    requires UpdateAccount(s, dto, hash).reply == Done
    ensures var t := Replay(s, UpdateAccount(s, dto, hash).calls, now);
      && t.users.Keys == s.users.Keys && t.nextId == s.nextId
      && (forall id :: id in s.users && id != dto.userId ==> t.users[id] == s.users[id])
      && (dto.userId in s.users ==>
            var before, after := s.users[dto.userId], t.users[dto.userId];
            && after.id == before.id && after.deletedAt == before.deletedAt
            && after.username == dto.username && after.email == dto.email
            && (dto.password.None? || dto.password == Some("") ==> after.hashedPassword == before.hashedPassword)
            && (dto.password.Some? && dto.password.value != "" ==> after.hashedPassword == hash(dto.password.value)))
  {
    ReplaySingleWrite(s, UpdateAccount(s, dto, hash).calls, UpdateUser(dto.userId, UpdateFor(dto, hash)), now);
  }

  /** An update, successful or not, keeps the store well formed and the account invariant. */
  lemma UpdateKeepsInvariant(s: Store, dto: UpdateAccountDTO, hash: string -> string, now: Timestamp)
    requires WellFormed(s) && UniqueAmongActive(s)
    ensures var t := Replay(s, UpdateAccount(s, dto, hash).calls, now);
      WellFormed(t) && UniqueAmongActive(t)
  {
    var r := UpdateAccount(s, dto, hash);
    if r.reply.BadRequest? {
      UpdateClashLeavesStore(s, dto, hash, now);
    } else {
      UpdateRewritesOnlyCaller(s, dto, hash, now);
      var t := Replay(s, r.calls, now);
      var me := dto.userId;
      forall a, b | a in t.users && b in t.users && a != b && t.users[a].IsActive() && t.users[b].IsActive()
        ensures t.users[a].username != t.users[b].username && t.users[a].email != t.users[b].email
      {
        if a == me {
          assert b in s.users && s.users[b].IsActive();
          assert s.users[b].username != dto.username;
          assert s.users[b].email != dto.email;
        } else if b == me {
          assert a in s.users && s.users[a].IsActive();
          assert s.users[a].username != dto.username;
          assert s.users[a].email != dto.email;
        }
      }
    }
  }

  /** Sign-out soft-deletes: the record stays, marked deleted at `now` with every other
      field as it was; no other record and no id changes. */
  lemma SignOutSoftDeletes(s: Store, userId: Id, now: Timestamp)
    ensures var t := Replay(s, SignOut(userId).calls, now);
      && t.users.Keys == s.users.Keys && t.nextId == s.nextId
      && (forall id :: id in s.users && id != userId ==> t.users[id] == s.users[id])
      && (userId in s.users ==> t.users[userId] == SoftDelete(s.users[userId], now))
  {
    ReplaySingleWrite(s, SignOut(userId).calls, DeleteUserAuth(userId), now);
  }

  /** Under the account invariant, an active user's username and email no longer
      hit a lookup, though the record is still stored. */
  lemma SignOutFreesUsernameAndEmail(s: Store, userId: Id, now: Timestamp)
    requires UniqueAmongActive(s)
    requires userId in s.users && s.users[userId].IsActive()
    ensures var t := Replay(s, SignOut(userId).calls, now);
      && userId in t.users && !t.users[userId].IsActive()
      && !UsernameTaken(t, s.users[userId].username)
      && !EmailTaken(t, s.users[userId].email)
  {
    SignOutSoftDeletes(s, userId, now);
    var t := Replay(s, SignOut(userId).calls, now);
    var u := s.users[userId];
    forall id | id in t.users && t.users[id].IsActive()
      ensures t.users[id].username != u.username && t.users[id].email != u.email
    {
      if id != userId {
        assert s.users[id] == t.users[id];
      }
    }
  }

  /** Sign-out keeps the store well formed and the account invariant: it only ever
      removes a user from the active ones. */
  lemma SignOutKeepsInvariant(s: Store, userId: Id, now: Timestamp)
    requires WellFormed(s) && UniqueAmongActive(s)
    ensures var t := Replay(s, SignOut(userId).calls, now);
      WellFormed(t) && UniqueAmongActive(t)
  {
    SignOutSoftDeletes(s, userId, now);
  }

  /** One request of any of the three use cases; a sign-out carries the adapter's
      clock reading for the deletion mark. */
  datatype Request =
    | SignUpRequest(signUp: SignUpDTO)
    | SignOutRequest(userId: Id, at: Timestamp)
    | UpdateAccountRequest(update: UpdateAccountDTO)

  /** The use case a request selects; none of the three ever faults. */
  function Handle(s: Store, req: Request, hash: string -> string): (r: Run)
    ensures r.reply == Done || r.reply == BadRequest(DuplicateDetail)
  {
    match req
    case SignUpRequest(dto) => SignUp(s, dto, hash)
    case SignOutRequest(id, _) => SignOut(id)
    case UpdateAccountRequest(dto) => UpdateAccount(s, dto, hash)
  }

  /** The clock reading a request carries; only a sign-out carries one. */
  function ClockOf(req: Request): (now: Timestamp) {
    if req.SignOutRequest? then req.at else 0
  }

  /** The store after one request. */
  function Step(s: Store, req: Request, hash: string -> string): (t: Store)
    ensures s.users.Keys <= t.users.Keys
  {
    Replay(s, Handle(s, req, hash).calls, ClockOf(req))
  }

  /** The store after requests handled one at a time, in order; no request ever
      removes a record (there is no hard delete). */
  function Serve(s: Store, reqs: seq<Request>, hash: string -> string): (t: Store)
    ensures s.users.Keys <= t.users.Keys
    decreases |reqs|
  {
    if reqs == [] then s else Serve(Step(s, reqs[0], hash), reqs[1..], hash)
  }

  /** Every request keeps the store well formed and the account invariant. */
  lemma StepKeepsInvariant(s: Store, req: Request, hash: string -> string)
    requires WellFormed(s) && UniqueAmongActive(s)
    ensures WellFormed(Step(s, req, hash)) && UniqueAmongActive(Step(s, req, hash))
  {
    match req
    case SignUpRequest(dto) => SignUpKeepsInvariant(s, dto, hash, ClockOf(req));
    case SignOutRequest(id, at) => SignOutKeepsInvariant(s, id, at);
    case UpdateAccountRequest(dto) => UpdateKeepsInvariant(s, dto, hash, ClockOf(req));
  }

  /** Handled one at a time, any sequence of requests keeps the account invariant. */
  lemma {:induction false} ServeKeepsInvariant(s: Store, reqs: seq<Request>, hash: string -> string)
    requires WellFormed(s) && UniqueAmongActive(s)
    ensures WellFormed(Serve(s, reqs, hash)) && UniqueAmongActive(Serve(s, reqs, hash))
    decreases |reqs|
  {
    if reqs != [] {
      StepKeepsInvariant(s, reqs[0], hash);
      ServeKeepsInvariant(Step(s, reqs[0], hash), reqs[1..], hash);
    }
  }
}
