/**
 The account endpoints of app/routes/auth_routes.py over the user table,
 which is keyed by e-mail. Password hashing and checking, token signing and
 Google token verification are oracles passed in by the caller.
 */
module Accounts {
  import opened Models
  import opened Auth

  const RegisteredMessage := "User registered successfully"
  const MissingFieldsMessage := "Email and password required"
  const EmailTakenMessage := "Email already registered"
  const InvalidCredentialsMessage := "Invalid credentials"

  /** The text of the `KeyError` raised when the verified Google claims have no e-mail. */
  const MissingEmailClaimMessage := KeyErrorText("email")

  /** The fields of a register request body; an absent key is `None`. */
  datatype RegisterRequest = RegisterRequest(
    email: Option<string>,
    password: Option<string>,
    firstName: Option<string>,
    lastName: Option<string>,
    country: Option<string>,
    city: Option<string>)

  /** The `user` object of a login answer. */
  datatype UserView = UserView(id: int, email: string, firstName: string, lastName: string, isAdmin: bool)

  /** A successful login: a signed token and the user it was issued to. */
  datatype Session = Session(token: string, user: UserView)

  datatype GoogleClaims = GoogleClaims(email: Option<string>, givenName: Option<string>, familyName: Option<string>)

  /** The outcome of `verify_oauth2_token`: the verified claims, or the text of the exception it raised. */
  datatype GoogleVerdict = Verified(claims: GoogleClaims) | VerifyFailed(reason: string)

  function View(u: User): UserView {
    UserView(u.id, u.email, u.firstName, u.lastName, u.isAdmin)
  }

  function SessionFor(u: User, sign: Payload -> string, now: int): Session {
    Session(sign(IssueToken(u, now)), View(u))
  }

  /** The user table keeps its invariants: e-mails and ids are unique. */
  ghost predicate ValidUsers(users: seq<User>) {
    UniqueEmails(users) && UniqueUserIds(users)
  }

  /** Appending a user whose e-mail and id are new keeps the user table valid. */
  lemma AppendFreshUser(users: seq<User>, u: User)
    requires FindUserByEmail(users, u.email).None?
    requires forall v | v in users :: v.id != u.id
    ensures ValidUsers(users) ==> ValidUsers(users + [u])
  {
    var us := users + [u];
    if ValidUsers(users) {
      forall i, j | 0 <= i < j < |us| ensures us[i].email != us[j].email && us[i].id != us[j].id {
        if j == |users| {
          assert us[i] in users;
        }
      }
    }
  }

  /** register: validation, then the duplicate check, then the insert with a hashed password. */
  function Register(s: Store, req: RegisterRequest, hash: string -> string): (r: Reply<string>)
    ensures !Present(req.email) || !Present(req.password) ==>
      r == Reply(s, 400, Error(MissingFieldsMessage))
    ensures Present(req.email) && Present(req.password) && FindUserByEmail(s.users, req.email.value).Some? ==>
      r == Reply(s, 409, Error(EmailTakenMessage))
    ensures r.status == 201 <==>
      Present(req.email) && Present(req.password) && FindUserByEmail(s.users, req.email.value).None?
    ensures r.status == 201 ==>
      && r.body == Ok(RegisteredMessage)
      && r.store == s.(users := r.store.users)
      && |r.store.users| == |s.users| + 1
      && r.store.users[..|s.users|] == s.users
      && var u := r.store.users[|s.users|];
      && u.email == req.email.value
      && u.passwordHash == hash(req.password.value)
      && u.firstName == req.firstName.GetOr("")
      && u.lastName == req.lastName.GetOr("")
      && u.country == Some(req.country.GetOr(""))
      && u.city == Some(req.city.GetOr(""))
      && !u.isGoogleUser && !u.isAdmin
      && (forall v | v in s.users :: v.id != u.id)
    ensures r.status != 201 ==> r.store == s
    ensures ValidUsers(s.users) ==> ValidUsers(r.store.users)
  {
    if !Present(req.email) || !Present(req.password) then
      Reply(s, 400, Error(MissingFieldsMessage))
    else if FindUserByEmail(s.users, req.email.value).Some? then
      Reply(s, 409, Error(EmailTakenMessage))
    else
      var u := User(
        FreshUserId(s.users),
        req.firstName.GetOr(""),
        req.lastName.GetOr(""),
        req.email.value,
        hash(req.password.value),
        Some(req.country.GetOr("")),
        Some(req.city.GetOr("")),
        false,
        false);
      AppendFreshUser(s.users, u);
      Reply(s.(users := s.users + [u]), 201, Ok(RegisteredMessage))
  }

  /**
   login: an unknown e-mail and a wrong password give the same 401; otherwise
   a token issued to the user found by e-mail.
   */
  function Login(users: seq<User>, email: Option<string>, password: string,
                 checkPassword: (string, string) -> bool, sign: Payload -> string, now: int): (r: Response<Session>)
    ensures r.status == 200 || r == Response(401, Error(InvalidCredentialsMessage))
    ensures r.status == 200 <==>
      && email.Some?
      && FindUserByEmail(users, email.value).Some?
      && checkPassword(FindUserByEmail(users, email.value).value.passwordHash, password)
    ensures r.status == 200 ==>
      exists u | u in users && u.email == email.value :: r.body == Ok(SessionFor(u, sign, now))
  {
    // `filter_by(email=None)` compares with NULL and finds no user
    var found := if email.Some? then FindUserByEmail(users, email.value) else None;
    if found.None? || !checkPassword(found.value.passwordHash, password) then
      Response(401, Error(InvalidCredentialsMessage))
    else
      Response(200, Ok(SessionFor(found.value, sign, now)))
  }

  /**
   google_login: find the user by the verified e-mail or create a Google user
   with an empty password hash, then issue a token for it.
   */
  function GoogleLogin(s: Store, verdict: GoogleVerdict, sign: Payload -> string, now: int): (r: Reply<Session>)
    ensures verdict.VerifyFailed? ==> r == Reply(s, 401, Error(verdict.reason))
    ensures verdict.Verified? && verdict.claims.email.None? ==> r == Reply(s, 401, Error(MissingEmailClaimMessage))
    ensures r.status == 200 || r.status == 401
    ensures r.status == 200 <==> verdict.Verified? && verdict.claims.email.Some?
    ensures r.status == 200 && FindUserByEmail(s.users, verdict.claims.email.value).Some? ==>
      r == Reply(s, 200, Ok(SessionFor(FindUserByEmail(s.users, verdict.claims.email.value).value, sign, now)))
    ensures r.status == 200 && FindUserByEmail(s.users, verdict.claims.email.value).None? ==>
      && r.store == s.(users := r.store.users)
      && |r.store.users| == |s.users| + 1
      && r.store.users[..|s.users|] == s.users
      && var u := r.store.users[|s.users|];
      && u.email == verdict.claims.email.value
      && u.firstName == verdict.claims.givenName.GetOr("")
      && u.lastName == verdict.claims.familyName.GetOr("")
      && u.passwordHash == ""
      && u.isGoogleUser && !u.isAdmin
      && u.country.None? && u.city.None?
      && r.body == Ok(SessionFor(u, sign, now))
    ensures r.status != 200 ==> r.store == s
    ensures ValidUsers(s.users) ==> ValidUsers(r.store.users)
  {
    match verdict
    case VerifyFailed(reason) => Reply(s, 401, Error(reason))
    case Verified(claims) =>
      if claims.email.None? then Reply(s, 401, Error(MissingEmailClaimMessage))
      else
        var found := FindUserByEmail(s.users, claims.email.value);
        if found.Some? then Reply(s, 200, Ok(SessionFor(found.value, sign, now)))
        else
          var u := User(
            FreshUserId(s.users),
            claims.givenName.GetOr(""),
            claims.familyName.GetOr(""),
            claims.email.value,
            "",
            None,
            None,
            true,
            false);
          AppendFreshUser(s.users, u);
          Reply(s.(users := s.users + [u]), 200, Ok(SessionFor(u, sign, now)))
  }

  // ---------------------------------------------------------------------------
  // Properties that relate several requests.

  /** Registering the same e-mail a second time conflicts and changes nothing. */
  lemma RegisterTwiceConflicts(s: Store, req: RegisterRequest, again: RegisterRequest, hash: string -> string)
    requires Register(s, req, hash).status == 201
    requires again.email == req.email && Present(again.password)
    ensures Register(Register(s, req, hash).store, again, hash) ==
      Reply(Register(s, req, hash).store, 409, Error(EmailTakenMessage))
  {
    var s' := Register(s, req, hash).store;
    assert s'.users[|s.users|] in s'.users;
  }

  /**
   After a successful registration, logging in with the same e-mail and
   password succeeds for the new user, provided the password check accepts
   the hash of the password it was made from.
   */
  lemma RegisterThenLogin(s: Store, req: RegisterRequest, hash: string -> string,
                          checkPassword: (string, string) -> bool, sign: Payload -> string, now: int)
    requires ValidUsers(s.users)
    requires Register(s, req, hash).status == 201
    requires checkPassword(hash(req.password.value), req.password.value)
    ensures var users := Register(s, req, hash).store.users;
      Login(users, req.email, req.password.value, checkPassword, sign, now) ==
      Response(200, Ok(SessionFor(users[|users| - 1], sign, now)))
  {
    var users := Register(s, req, hash).store.users;
    FindUserByEmailUnique(users, users[|users| - 1]);
  }

  /** A password check that never accepts an empty hash keeps Google-created accounts out of password login. */
  lemma GoogleUserCannotPasswordLogin(s: Store, verdict: GoogleVerdict, password: string,
                                      checkPassword: (string, string) -> bool, sign: Payload -> string, now: int)
    requires ValidUsers(s.users)
    requires verdict.Verified? && verdict.claims.email.Some?
    requires FindUserByEmail(s.users, verdict.claims.email.value).None?
    requires !checkPassword("", password)
    ensures Login(GoogleLogin(s, verdict, sign, now).store.users, verdict.claims.email,
                  password, checkPassword, sign, now).status == 401
  {
    var users := GoogleLogin(s, verdict, sign, now).store.users;
    FindUserByEmailUnique(users, users[|users| - 1]);
  }

  /** Google login is find-or-create: a second login with the same claims adds no user and answers alike. */
  lemma GoogleLoginIdempotent(s: Store, verdict: GoogleVerdict, sign: Payload -> string, now: int)
    requires ValidUsers(s.users)
    ensures var first := GoogleLogin(s, verdict, sign, now);
      GoogleLogin(first.store, verdict, sign, now) == first
  {
    var first := GoogleLogin(s, verdict, sign, now);
    if first.status == 200 && FindUserByEmail(s.users, verdict.claims.email.value).None? {
      var users := first.store.users;
      FindUserByEmailUnique(users, users[|users| - 1]);
    }
  }
}
