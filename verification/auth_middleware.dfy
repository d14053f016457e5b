/** The two bearer-token gates in front of the routes. Token verification
    (signature and expiry) is an oracle `verify` that either rejects the
    token or yields the user id it names. */
module AuthMiddleware {
  import opened Base
  import opened Text
  import opened UserSchema

  const BearerPrefix: string := "Bearer "

  datatype Verdict = Invalid | Valid(subject: Id)

  /** The token of an `Authorization` header: present only when the header
      starts with `Bearer ` (case-sensitive), and then the header minus its
      first seven characters. */
  function BearerToken(header: Option<string>): (r: Option<string>)
    ensures r.Some? <==> header.Some? && StartsWith(header.value, BearerPrefix)
    ensures r.Some? ==> header.value == BearerPrefix + r.value
  {
    if header.Some? && StartsWith(header.value, BearerPrefix) then
      assert header.value == header.value[..7] + header.value[7..];
      Some(header.value[7..])
    else None
  }

  /** The user a valid token resolves to, if its subject casts to an
      ObjectId and is in the collection. */
  function Resolve(token: string, verify: string -> Verdict, users: UserStore): Option<User> {
    match verify(token)
    case Invalid => None
    case Valid(subject) =>
      if !IsObjectId(subject) then None else
      var k := FindById(users, subject);
      if k.Some? then Some(users[k.value]) else None
  }

  /** The result of `requireAuth`: either a 401 reply and no call to `next`,
      or `next` with the resolved user attached to the request. */
  datatype Gate = Rejected(status: int, message: string) | Admitted(user: User)

  const MissingToken: string := "Authentication required"
  const BadToken: string := "Invalid authentication token"

  /** `requireAuth`. */
  function RequireAuth(header: Option<string>, verify: string -> Verdict, users: UserStore): (r: Gate)
    ensures r.Rejected? ==> r.status == Unauthorized
    ensures BearerToken(header).None? ==> r == Rejected(Unauthorized, MissingToken)
    ensures BearerToken(header).Some? && r.Rejected? ==> r.message == BadToken
    ensures r.Admitted? <==>
              && BearerToken(header).Some?
              && verify(BearerToken(header).value).Valid?
              && IsObjectId(verify(BearerToken(header).value).subject)
              && FindById(users, verify(BearerToken(header).value).subject).Some?
    ensures r.Admitted? ==> r.user in users && Valid(r.user.id) == verify(BearerToken(header).value)
  {
    var token := BearerToken(header);
    if token.None? then Rejected(Unauthorized, MissingToken)
    else
      var user := Resolve(token.value, verify, users);
      if user.None? then Rejected(Unauthorized, BadToken) else Admitted(user.value)
  }

  /** `optionalAuth`: never replies and always calls `next`; the result is
      the request's user afterwards. A header that is not a bearer header, a
      token that fails verification, or a subject the lookup cannot cast
      (all three end in the `catch`) leave the user the request already had
      (`prior`); otherwise the lookup replaces it, by `undefined` when the
      subject is unknown. */
  function OptionalAuth(header: Option<string>, verify: string -> Verdict, users: UserStore,
                        prior: Option<User>): (r: Option<User>)
    ensures BearerToken(header).None? ==> r == prior
    ensures BearerToken(header).Some? && verify(BearerToken(header).value).Invalid? ==> r == prior
    ensures (&& BearerToken(header).Some? && verify(BearerToken(header).value).Valid?
             && !IsObjectId(verify(BearerToken(header).value).subject)) ==> r == prior
    ensures (&& BearerToken(header).Some? && verify(BearerToken(header).value).Valid?
             && IsObjectId(verify(BearerToken(header).value).subject)) ==>
              (r.Some? <==> FindById(users, verify(BearerToken(header).value).subject).Some?)
    ensures r.Some? && r != prior ==> r.value in users
  {
    var token := BearerToken(header);
    if token.None? then prior
    else if verify(token.value).Invalid? then prior
    else if !IsObjectId(verify(token.value).subject) then prior
    else Resolve(token.value, verify, users)
  }

  /** The two gates agree: whenever `requireAuth` admits a user,
      `optionalAuth` attaches the same user. When `requireAuth` rejects,
      `optionalAuth` leaves no user exactly when the token verified and its
      subject casts but names nobody; on every other rejection (no bearer
      header, a token that fails verification, a subject that is no
      ObjectId) it keeps the user the request already had. */
  lemma GatesAgree(header: Option<string>, verify: string -> Verdict, users: UserStore,
                   prior: Option<User>)
    ensures RequireAuth(header, verify, users).Admitted? ==>
              OptionalAuth(header, verify, users, prior) == Some(RequireAuth(header, verify, users).user)
    ensures RequireAuth(header, verify, users).Rejected? ==>
              OptionalAuth(header, verify, users, prior) == prior
              || OptionalAuth(header, verify, users, prior) == None
    ensures RequireAuth(header, verify, users).Rejected? ==>
              OptionalAuth(header, verify, users, prior)
              == if && BearerToken(header).Some?
                    && verify(BearerToken(header).value).Valid?
                    && IsObjectId(verify(BearerToken(header).value).subject)
                 then None else prior
  {
  }

  /** In a well-formed collection the admitted user is the one whose id
      the token names. */
  lemma AdmittedIsSubject(header: Option<string>, verify: string -> Verdict, users: UserStore, k: nat)
    requires WellFormed(users) && k < |users| && IsObjectId(users[k].id)
    requires BearerToken(header).Some? && verify(BearerToken(header).value) == Valid(users[k].id)
    ensures RequireAuth(header, verify, users) == Admitted(users[k])
  {
    FindByIdUnique(users, k);
  }

  /** A verified token whose subject is no ObjectId makes the lookup throw:
      the strict gate answers 401 from its `catch`, and the optional gate
      keeps the user the request already had. */
  lemma MalformedSubject(header: Option<string>, verify: string -> Verdict, users: UserStore,
                         prior: Option<User>, subject: Id)
    requires BearerToken(header).Some? && verify(BearerToken(header).value) == Valid(subject)
    requires !IsObjectId(subject)
    ensures RequireAuth(header, verify, users) == Rejected(Unauthorized, BadToken)
    ensures OptionalAuth(header, verify, users, prior) == prior
  {
  }

  /** A header that does not start with the exact prefix `Bearer ` counts
      as no token at all: the strict gate asks for authentication and the
      optional gate keeps the user the request already had. */
  lemma NonBearerHeader(header: string, verify: string -> Verdict, users: UserStore,
                        prior: Option<User>)
    requires !StartsWith(header, BearerPrefix)
    ensures RequireAuth(Some(header), verify, users) == Rejected(Unauthorized, MissingToken)
    ensures OptionalAuth(Some(header), verify, users, prior) == prior
  {
  }

  /** Only the exact prefix opens the gate: a lower-case scheme is refused. */
  lemma SchemeIsCaseSensitive(verify: string -> Verdict, users: UserStore)
    ensures RequireAuth(Some("bearer abc"), verify, users) == Rejected(Unauthorized, MissingToken)
  {
    assert !StartsWith("bearer abc", BearerPrefix) by { assert "bearer abc"[0] == 'b'; }
    NonBearerHeader("bearer abc", verify, users, None);
  }
}
