/** The data carried across the account service's inbound and outbound ports, and
    the outbound calls themselves, recorded as a trace so that the order and number
    of calls a use case makes can be stated. */
module Ports {
  import opened Wrappers
  import opened UserDomain

  /** Inbound request of the sign-up use case. */
  datatype SignUpDTO = SignUpDTO(username: string, email: string, password: string)

  /** Inbound request of the update-account use case; the password is optional. */
  datatype UpdateAccountDTO = UpdateAccountDTO(
    userId: Id,
    username: string,
    email: string,
    password: Option<string>)

  /** What the service hands to `create_user`. */
  datatype CreateUserDTO = CreateUserDTO(username: string, hashedPassword: string, email: string)

  /** What the service hands to `update_user`: a partial update, `None` meaning "do not write". */
  datatype UpdateUserDTO = UpdateUserDTO(
    username: Option<string>,
    email: Option<string>,
    hashedPassword: Option<string>)

  /** One call through an outbound port: two lookups and three writes. */
  datatype PortCall =
    | CheckByUsername(username: string)
    | CheckByEmail(email: string)
    | CreateUser(create: CreateUserDTO)
    | UpdateUser(userId: Id, update: UpdateUserDTO)
    | DeleteUserAuth(userId: Id)
  {
    predicate IsWrite() {
      CreateUser? || UpdateUser? || DeleteUserAuth?
    }
  }

  /** The writes of a trace, in the order they were issued. */
  function Writes(calls: seq<PortCall>): (w: seq<PortCall>)
    ensures forall c :: c in w <==> c in calls && c.IsWrite()
    ensures |w| <= |calls|
  {
    if calls == [] then []
    else (if calls[0].IsWrite() then [calls[0]] else []) + Writes(calls[1..])
  }

  /** The writes of two traces run one after the other are the writes of each, in order. */
  lemma {:induction false} WritesAppend(a: seq<PortCall>, b: seq<PortCall>)
    ensures Writes(a + b) == Writes(a) + Writes(b)
    decreases |a|
  {
    if a == [] {
      assert a + b == b;
    } else {
      assert (a + b)[1..] == a[1..] + b;
      WritesAppend(a[1..], b);
    }
  }
}
