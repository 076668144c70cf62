/** The login decision and `getMe`. Password hashing (`bcrypt.compare`) and
    token signing (`jwt.sign` with the process secret) are opaque functions
    passed in as parameters. */
module Login {
  import opened Http
  import opened Schema
  import opened Text

  const MSG_REQUIRED := "Email/UserID and password are required"
  const MSG_INVALID := "Invalid credentials"

  /** `expiresIn: '24h'`. */
  const TOKEN_LIFETIME_HOURS: nat := 24

  /** The body of `POST /login`: the `email` field carries an email or a userid. */
  datatype LoginBody = LoginBody(email: Option<string>, password: Option<string>)

  /** What a token binds. */
  datatype TokenPayload = TokenPayload(id: nat, email: string, role: Role)

  /** What `jwt.verify` hands back: the payload with its issue and expiry times. */
  datatype Claims = Claims(payload: TokenPayload, issuedAt: int, expiresAt: int)

  /** The public user summary; there is no password in it. */
  datatype UserSummary = UserSummary(id: nat, name: Option<string>, email: string, role: Role)

  datatype Session = Session(token: string, user: UserSummary)

  /** `LOWER(email) = LOWER(x) OR LOWER(userid) = LOWER(x)`; a NULL userid
      matches nothing. */
  predicate Identifies(u: User, ident: string): (b: bool)
    ensures Lower(u.email) == Lower(ident) ==> b
    ensures u.userid.None? ==> (b <==> Lower(u.email) == Lower(ident))
    ensures b ==> |ident| == |u.email| || (u.userid.Some? && |ident| == |u.userid.value|)
  {
    || Lower(u.email) == Lower(ident)
    || (u.userid.Some? && Lower(u.userid.value) == Lower(ident))
  }

  /** User `i` is the first one, in table order, that `ident` names. */
  predicate IsFirstMatch(users: seq<User>, ident: string, i: int) {
    && 0 <= i < |users|
    && Identifies(users[i], ident)
    && forall j :: 0 <= j < i ==> !Identifies(users[j], ident)
  }

  /** The lookup with `.limit(1)`: the first user, in table order, that the
      identifier names. */
  function FindUser(users: seq<User>, ident: string): (r: Option<nat>)
    ensures r.Some? ==> IsFirstMatch(users, ident, r.value)
    ensures r.None? <==> forall j :: 0 <= j < |users| ==> !Identifies(users[j], ident)
    decreases |users|
  {
    if users == [] then None
    else if Identifies(users[0], ident) then Some(0)
    else match FindUser(users[1..], ident)
      case None => None
      case Some(i) => Some(i + 1)
  }

  function Payload(u: User): TokenPayload {
    TokenPayload(u.id, u.email, u.role)
  }

  function Summary(u: User): UserSummary {
    UserSummary(u.id, u.name, u.email, u.role)
  }

  /** `login`. `compare(plain, hash)` stands for `bcrypt.compare`;
      `sign(payload, hours)` for `jwt.sign` with the process secret. */
  function Login(users: seq<User>, body: LoginBody,
                 compare: (string, string) -> bool,
                 sign: (TokenPayload, nat) -> string): (r: Response<Session>)
    ensures r.Failure? ==> r == Failure(BAD_REQUEST, MSG_REQUIRED) || r == Failure(UNAUTHORIZED, MSG_INVALID)
    ensures r.Success? ==>
      && r.status == OK && Present(body.email) && Present(body.password)
      && exists i :: IsFirstMatch(users, body.email.value, i)
           && compare(body.password.value, users[i].password)
           && r.data == Session(sign(Payload(users[i]), TOKEN_LIFETIME_HOURS), Summary(users[i]))
  {
    if !Present(body.email) || !Present(body.password) then
      Failure(BAD_REQUEST, MSG_REQUIRED)
    else
      match FindUser(users, body.email.value)
      case None => Failure(UNAUTHORIZED, MSG_INVALID)
      case Some(i) =>
        if !compare(body.password.value, users[i].password) then
          Failure(UNAUTHORIZED, MSG_INVALID)
        else
          Success(OK, Session(sign(Payload(users[i]), TOKEN_LIFETIME_HOURS), Summary(users[i])))
  }

  /** `getMe`: answers with the claims the middleware stored, unchanged. */
  function GetMe(user: Option<Claims>): (r: Response<Option<Claims>>)
    ensures r.Success? && r.status == OK && r.data == user
  {
    Success(OK, user)
  }

  /** A missing or empty identifier or password is refused with 400 before
      any lookup: the answer does not depend on the users table. */
  lemma MissingFieldsRefusedBeforeLookup(users: seq<User>, others: seq<User>, body: LoginBody,
                                         compare: (string, string) -> bool,
                                         sign: (TokenPayload, nat) -> string)
    requires !Present(body.email) || !Present(body.password)
    ensures Login(users, body, compare, sign) == Failure(BAD_REQUEST, MSG_REQUIRED)
    ensures Login(users, body, compare, sign) == Login(others, body, compare, sign)
  {
  }

  /** An unknown identifier and a known one with the wrong password get the
      very same answer, so the answer does not reveal which accounts exist. */
  lemma UnknownAndWrongPasswordLookAlike(unknownIn: seq<User>, knownIn: seq<User>, body: LoginBody,
                                          compare: (string, string) -> bool,
                                          sign: (TokenPayload, nat) -> string)
    requires Present(body.email) && Present(body.password)
    requires forall j :: 0 <= j < |unknownIn| ==> !Identifies(unknownIn[j], body.email.value)
    requires FindUser(knownIn, body.email.value).Some?
    requires !compare(body.password.value, knownIn[FindUser(knownIn, body.email.value).value].password)
    ensures Login(unknownIn, body, compare, sign) == Login(knownIn, body, compare, sign)
    ensures Login(unknownIn, body, compare, sign) == Failure(UNAUTHORIZED, MSG_INVALID)
  {
  }

  /** Login succeeds exactly when the first user the identifier names has a
      matching password; the token then binds that user's id, email and role
      for 24 hours, and the summary carries id, name, email and role. */
  lemma LoginSucceedsIffPasswordMatches(users: seq<User>, body: LoginBody,
                                        compare: (string, string) -> bool,
                                        sign: (TokenPayload, nat) -> string)
    requires Present(body.email) && Present(body.password)
    ensures Login(users, body, compare, sign).Success? <==>
      exists i :: IsFirstMatch(users, body.email.value, i) && compare(body.password.value, users[i].password)
    ensures forall i :: IsFirstMatch(users, body.email.value, i) && compare(body.password.value, users[i].password) ==>
      Login(users, body, compare, sign) == Success(OK, Session(
        sign(TokenPayload(users[i].id, users[i].email, users[i].role), 24),
        UserSummary(users[i].id, users[i].name, users[i].email, users[i].role)))
  {
    var r := FindUser(users, body.email.value);
    forall i | IsFirstMatch(users, body.email.value, i)
      ensures r == Some(i)
    {
    }
  }

  /** Lower-casing the identifier does not change which user it names. */
  lemma {:induction false} FindUserIgnoresCase(users: seq<User>, a: string, b: string)
    requires Lower(a) == Lower(b)
    ensures FindUser(users, a) == FindUser(users, b)
    decreases |users|
  {
    if users != [] {
      FindUserIgnoresCase(users[1..], a, b);
    }
  }

  /** The identifier is matched without regard to case: "GRD001" and
      "grd001" log in the same way. */
  lemma IdentifierCaseInsensitive(users: seq<User>, a: string, b: string, password: Option<string>,
                                  compare: (string, string) -> bool,
                                  sign: (TokenPayload, nat) -> string)
    requires Lower(a) == Lower(b)
    ensures Login(users, LoginBody(Some(a), password), compare, sign)
         == Login(users, LoginBody(Some(b), password), compare, sign)
  {
    FindUserIgnoresCase(users, a, b);
    assert |a| == |Lower(a)| == |Lower(b)| == |b|;
  }

  /** The unique constraint on `email` compares exactly, the lookup ignores
      case: two accounts whose emails differ only in case can both be stored,
      and then the identifier reaches only the first of them. */
  lemma CaseVariantIsShadowed()
    ensures var first := User(1, None, None, "Ann@x", "h1", UserRole, 0, 0);
            var second := User(2, None, None, "ann@x", "h2", AdminRole, 0, 0);
            && UsersUnique([first, second])
            && Identifies(second, "ann@x")
            && FindUser([first, second], "ann@x") == Some(0)
  {
    var first := User(1, None, None, "Ann@x", "h1", UserRole, 0, 0);
    assert Lower("Ann@x") == "ann@x";
    assert Lower("ann@x") == "ann@x";
    assert Identifies(first, "ann@x");
  }
}
