/** The user store behind the persistence adapter, whose code is not part of this
    model. It is an immutable map from id to user plus the adapter's id generator,
    and each outbound port call is given the meaning the service relies on. */
module UserStore {
  import opened Wrappers
  import opened UserDomain
  import opened Ports

  /** `nextId` stands for the adapter's supply of fresh UUIDs. */
  datatype Store = Store(users: map<Id, User>, nextId: Id)

  /** Every record sits under its own id, and every id in use is below the next fresh one. */
  predicate WellFormed(s: Store) {
    forall id :: id in s.users ==> s.users[id].id == id && id < s.nextId
  }

  /** Assumed meaning of a `check_by_username` hit: some active user has this username. */
  predicate UsernameTaken(s: Store, username: string) {
    exists id :: id in s.users && s.users[id].IsActive() && s.users[id].username == username
  }

  /** Assumed meaning of a `check_by_email` hit: some active user has this email. */
  predicate EmailTaken(s: Store, email: string) {
    exists id :: id in s.users && s.users[id].IsActive() && s.users[id].email == email
  }

  /** The account invariant: no two distinct active users share a username or an email. */
  predicate UniqueAmongActive(s: Store) {
    forall a, b ::
      a in s.users && b in s.users && a != b && s.users[a].IsActive() && s.users[b].IsActive()
      ==> s.users[a].username != s.users[b].username && s.users[a].email != s.users[b].email
  }

  /** The answer a lookup port gives; writes answer nothing. */
  function Answer(s: Store, c: PortCall): (hit: bool)
    ensures c.CheckByUsername? ==> (hit <==> UsernameTaken(s, c.username))
    ensures c.CheckByEmail? ==> (hit <==> EmailTaken(s, c.email))
    ensures c.IsWrite() ==> !hit
  {
    match c
    case CheckByUsername(u) => UsernameTaken(s, u)
    case CheckByEmail(e) => EmailTaken(s, e)
    case _ => false
  }

  /** Partial update: a field the DTO leaves `None` keeps its value, a present field
      takes the DTO's value; the id and the deletion mark are never touched. */
  function Patch(u: User, p: UpdateUserDTO): (v: User)
    ensures p.username.None? ==> v.username == u.username
    ensures p.username.Some? ==> v.username == p.username.value
    ensures p.email.None? ==> v.email == u.email
    ensures p.email.Some? ==> v.email == p.email.value
    ensures p.hashedPassword.None? ==> v.hashedPassword == u.hashedPassword
    ensures p.hashedPassword.Some? ==> v.hashedPassword == p.hashedPassword.value
    ensures v.id == u.id && v.deletedAt == u.deletedAt
  {
    u.(username := p.username.GetOr(u.username),
       email := p.email.GetOr(u.email),
       hashedPassword := p.hashedPassword.GetOr(u.hashedPassword))
  }

  /** The effect of one port call on the store; `now` is the adapter's clock reading,
      used only by the soft delete. Lookups change nothing, no call removes a record,
      and a write keyed by an unknown id affects no row. */
  function Apply(s: Store, c: PortCall, now: Timestamp): (t: Store)
    ensures !c.IsWrite() ==> t == s
    ensures s.users.Keys <= t.users.Keys
    ensures !c.CreateUser? ==> t.users.Keys == s.users.Keys && t.nextId == s.nextId
    ensures c.CreateUser? ==> t.users.Keys == s.users.Keys + {s.nextId} && t.nextId > s.nextId
  {
    match c
    case CheckByUsername(_) => s
    case CheckByEmail(_) => s
    case CreateUser(dto) =>
      var created := User(s.nextId, dto.username, dto.hashedPassword, dto.email, None);
      Store(s.users[s.nextId := created], s.nextId + 1)
    case UpdateUser(id, dto) =>
      if id in s.users then s.(users := s.users[id := Patch(s.users[id], dto)]) else s
    case DeleteUserAuth(id) =>
      if id in s.users then s.(users := s.users[id := SoftDelete(s.users[id], now)]) else s
  }

  /** The store after a whole trace of port calls, issued in order. */
  function Replay(s: Store, calls: seq<PortCall>, now: Timestamp): (t: Store)
    ensures s.users.Keys <= t.users.Keys
    ensures s.nextId <= t.nextId
    decreases |calls|
  {
    if calls == [] then s else Replay(Apply(s, calls[0], now), calls[1..], now)
  }

  /** Only the writes of a trace act on the store. */
  lemma {:induction false} ReplayIgnoresLookups(s: Store, calls: seq<PortCall>, now: Timestamp)
    ensures Replay(s, calls, now) == Replay(s, Writes(calls), now)
    decreases |calls|
  {
    if calls != [] {
      var c := calls[0];
      ReplayIgnoresLookups(Apply(s, c, now), calls[1..], now);
      if c.IsWrite() {
        var w := [c] + Writes(calls[1..]);
        assert Writes(calls) == w;
        assert w[0] == c && w[1..] == Writes(calls[1..]);
      } else {
        assert Writes(calls) == Writes(calls[1..]);
        ReplayIgnoresLookups(s, calls[1..], now);
      }
    }
  }

  /** A trace that writes nothing leaves the store as it was. */
  lemma ReplayWithoutWrites(s: Store, calls: seq<PortCall>, now: Timestamp)
    requires Writes(calls) == []
    ensures Replay(s, calls, now) == s
  {
    ReplayIgnoresLookups(s, calls, now);
  }

  /** A trace that writes exactly once acts on the store as that one write does. */
  lemma ReplaySingleWrite(s: Store, calls: seq<PortCall>, c: PortCall, now: Timestamp)
    requires Writes(calls) == [c]
    ensures Replay(s, calls, now) == Apply(s, c, now)
  {
    ReplayIgnoresLookups(s, calls, now);
    assert [c][1..] == [];
  }

  /** Every port call keeps the store well formed: a created user gets the fresh id. */
  lemma ApplyKeepsWellFormed(s: Store, c: PortCall, now: Timestamp)
    requires WellFormed(s)
    ensures WellFormed(Apply(s, c, now))
  {
  }

  /** Well-formedness says nothing about uniqueness: the entity lets two active users
      share a username and an email, so that invariant comes only from the services. */
  lemma EntityAllowsDuplicates()
    ensures exists s :: WellFormed(s) && !UniqueAmongActive(s)
  {
    var s := Store(map[0 := User(0, "ann", "h", "a@x", None), 1 := User(1, "ann", "h", "a@x", None)], 2);
    assert s.users[0].username == s.users[1].username;
    assert WellFormed(s) && !UniqueAmongActive(s);
  }
}
