/**
 Token issue and the two request guards of app/utils/auth.py.

 Signing and decoding with HS256 are not modelled: a token is issued as a
 `Payload`, signing is whatever function the caller passes, and decoding is
 an oracle from the presented token string to a `DecodeOutcome`. The guards
 are classifiers from the Authorization header, the decode outcome and the
 user table to "run the handler" or an error response.
 */
module Auth {
  import opened Models

  const BearerPrefix := "Bearer "

  /** Tokens expire three hours after issue; times are in seconds. */
  const TokenLifetime := 3 * 60 * 60

  const MissingTokenMessage := "Token eksik"
  const ExpiredTokenMessage := "Token s\U{00FC}resi dolmu\U{015F}"
  const InvalidTokenMessage := "Ge\U{00E7}ersiz token"
  const AdminOnlyMessage := "Bu i\U{015F}lem sadece adminlere a\U{00E7}\U{0131}kt\U{0131}r"
  const UserNotFoundMessage := "Kullan\U{0131}c\U{0131} bulunamad\U{0131}"

  /** The claims of a token. `userId` is absent when the decoded claims lack `user_id`. */
  datatype Payload = Payload(userId: Option<int>, email: string, exp: int)

  /** What decoding a token string yields: its claims, or one of the two failures the guards tell apart. */
  datatype DecodeOutcome = Claims(payload: Payload) | ExpiredSignature | InvalidToken

  /** The guard's decision: run the wrapped handler for `user`, or answer with an error. */
  datatype Verdict = Admit(user: User) | Reject(status: int, message: string)

  /**
   `s.replace(p, "")`: Python scans left to right and deletes every
   non-overlapping occurrence of `p`, not just a leading one.
   */
  function RemoveAll(p: string, s: string): (t: string)
    requires |p| > 0
    ensures |t| <= |s|
    decreases |s|
  {
    if IsPrefix(p, s) then RemoveAll(p, s[|p|..])
    else if |s| == 0 then ""
    else [s[0]] + RemoveAll(p, s[1..])
  }

  /** `header.replace("Bearer ", "")` */
  function StripBearer(s: string): (t: string)
    ensures |t| <= |s|
  {
    RemoveAll(BearerPrefix, s)
  }

  /** A string without any occurrence of the pattern is left as it is. */
  lemma {:induction false} RemoveAllKeepsPlain(p: string, t: string)
    requires |p| > 0
    requires !Occurs(p, t)
    ensures RemoveAll(p, t) == t
    decreases |t|
  {
    if |t| > 0 {
      assert !Occurs(p, t[1..]);
      RemoveAllKeepsPlain(p, t[1..]);
      assert t == [t[0]] + t[1..];
    }
  }

  /** The pattern followed by text that does not contain it yields that text. */
  lemma RemoveAllAfterPattern(p: string, t: string)
    requires |p| > 0
    requires !Occurs(p, t)
    ensures RemoveAll(p, p + t) == t
  {
    var h := p + t;
    assert IsPrefix(p, h);
    assert h[|p|..] == t;
    RemoveAllKeepsPlain(p, t);
  }

  /**
   When the first character of the pattern does not recur in it, text free of
   the pattern cannot start an occurrence that runs into a following one.
   */
  lemma NotPrefixBeforeOccurrence(p: string, a: string, t: string)
    requires |p| > 0 && p[0] !in p[1..]
    requires 0 < |a|
    requires !Occurs(p, a)
    ensures !IsPrefix(p, a + p + t)
  {
    var s := a + p + t;
    if |a| >= |p| {
      assert !IsPrefix(p, a);
      assert a[..|p|] == s[..|p|];
    } else {
      assert s[|a|] == p[0];
      assert p[|a|] == p[1..][|a| - 1];
    }
  }

  /** An occurrence after pattern-free text is removed too. */
  lemma {:induction false} RemoveAllInner(p: string, a: string, t: string)
    requires |p| > 0 && p[0] !in p[1..]
    requires !Occurs(p, a)
    requires !Occurs(p, t)
    ensures RemoveAll(p, a + p + t) == a + t
    decreases |a|
  {
    if |a| == 0 {
      assert a + p + t == p + t;
      RemoveAllAfterPattern(p, t);
    } else {
      var s := a + p + t;
      NotPrefixBeforeOccurrence(p, a, t);
      assert s[1..] == a[1..] + p + t;
      assert !Occurs(p, a[1..]);
      RemoveAllInner(p, a[1..], t);
      assert a + t == [a[0]] + (a[1..] + t);
    }
  }

  /** The 'B' of "Bearer " occurs only at its start. */
  lemma BearerHeadIsUnique()
    ensures BearerPrefix[0] !in BearerPrefix[1..]
  {
    assert BearerPrefix[1..] == "earer ";
  }

  /** A token without any "Bearer " in it is left as it is. */
  lemma StripBearerKeepsPlainToken(t: string)
    requires !Occurs(BearerPrefix, t)
    ensures StripBearer(t) == t
  {
    RemoveAllKeepsPlain(BearerPrefix, t);
  }

  /** "Bearer " followed by a token that does not itself contain "Bearer " yields the token. */
  lemma StripBearerOfHeader(t: string)
    requires !Occurs(BearerPrefix, t)
    ensures StripBearer(BearerPrefix + t) == t
  {
    RemoveAllAfterPattern(BearerPrefix, t);
  }

  /** An occurrence after other text is removed too: the replacement is not a prefix strip. */
  lemma StripBearerRemovesInnerOccurrence(a: string, t: string)
    requires !Occurs(BearerPrefix, a)
    requires !Occurs(BearerPrefix, t)
    ensures StripBearer(a + BearerPrefix + t) == a + t
  {
    BearerHeadIsUnique();
    RemoveAllInner(BearerPrefix, a, t);
  }

  /** generate_token: the claims carry the user's id and e-mail and expire three hours after `now`. */
  function IssueToken(u: User, now: int): (p: Payload)
    ensures p.userId == Some(u.id) && p.email == u.email
    ensures p.exp - now == 10800
  {
    Payload(Some(u.id), u.email, now + TokenLifetime)
  }

  /** The token the guards take from the request: none without a header, else the stripped header. */
  function PresentedToken(header: Option<string>): (t: Option<string>)
    ensures t.None? <==> header.None?
    ensures header.Some? ==> t == Some(StripBearer(header.value))
  {
    match header
    case None => None
    case Some(h) => Some(StripBearer(h))
  }

  /** Shared front half of both guards: missing token, then the decode outcome, then the user lookup. */
  function Identify(header: Option<string>, decode: string -> DecodeOutcome, users: seq<User>): (v: Result)
    ensures !Present(PresentedToken(header)) ==> v == Failed(401, MissingTokenMessage)
    ensures Present(PresentedToken(header)) && decode(PresentedToken(header).value) == ExpiredSignature ==>
      v == Failed(401, ExpiredTokenMessage)
    ensures UnusableToken(header, decode) ==> v == Failed(401, InvalidTokenMessage)
    ensures v.Looked? <==> DecodesToUserId(header, decode)
    ensures v.Looked? ==> v.user == FindUserById(users, decode(PresentedToken(header).value).payload.userId.value)
  {
    var token := PresentedToken(header);
    if !Present(token) then Failed(401, MissingTokenMessage)
    else
      match decode(token.value)
      case ExpiredSignature => Failed(401, ExpiredTokenMessage)
      case InvalidToken => Failed(401, InvalidTokenMessage)
      case Claims(p) =>
        if p.userId.None? then Failed(401, InvalidTokenMessage)
        else Looked(FindUserById(users, p.userId.value))
  }

  datatype Result = Failed(status: int, message: string) | Looked(user: Option<User>)

  /** The request carries a token whose claims name a user id, whether or not that user exists. */
  predicate DecodesToUserId(header: Option<string>, decode: string -> DecodeOutcome) {
    var token := PresentedToken(header);
    Present(token) && decode(token.value).Claims? && decode(token.value).payload.userId.Some?
  }

  /**
   A token is presented but is neither expired nor decodes to claims naming a
   user id: any other decoding error, or claims without `user_id`.
   */
  predicate UnusableToken(header: Option<string>, decode: string -> DecodeOutcome) {
    var token := PresentedToken(header);
    Present(token) && !decode(token.value).ExpiredSignature? && !DecodesToUserId(header, decode)
  }

  /** `token_required`: the handler runs with the user the token names. */
  function TokenRequired(header: Option<string>, decode: string -> DecodeOutcome, users: seq<User>): (v: Verdict)
    ensures !Present(PresentedToken(header)) ==> v == Reject(401, MissingTokenMessage)
    ensures Present(PresentedToken(header)) && decode(PresentedToken(header).value) == ExpiredSignature ==>
      v == Reject(401, ExpiredTokenMessage)
    ensures v.Admit? <==>
      DecodesToUserId(header, decode) &&
      FindUserById(users, decode(PresentedToken(header).value).payload.userId.value).Some?
    ensures v.Admit? ==> v.user in users && v.user.id == decode(PresentedToken(header).value).payload.userId.value
    ensures v.Reject? && v.status == 403 <==>
      DecodesToUserId(header, decode) &&
      FindUserById(users, decode(PresentedToken(header).value).payload.userId.value).None?
    ensures UnusableToken(header, decode) ==> v == Reject(401, InvalidTokenMessage)
    ensures v.Reject? && v.status == 403 ==> v.message == UserNotFoundMessage
    ensures v.Reject? ==> (v.status == 401 || v.status == 403)
  {
    match Identify(header, decode, users)
    case Failed(status, message) => Reject(status, message)
    case Looked(found) =>
      if found.None? then Reject(403, UserNotFoundMessage) else Admit(found.value)
  }

  /** `admin_required`: the handler runs only for an existing admin user. */
  function AdminRequired(header: Option<string>, decode: string -> DecodeOutcome, users: seq<User>): (v: Verdict)
    ensures !Present(PresentedToken(header)) ==> v == Reject(401, MissingTokenMessage)
    ensures Present(PresentedToken(header)) && decode(PresentedToken(header).value) == ExpiredSignature ==>
      v == Reject(401, ExpiredTokenMessage)
    ensures v.Admit? <==>
      DecodesToUserId(header, decode) &&
      var found := FindUserById(users, decode(PresentedToken(header).value).payload.userId.value);
      found.Some? && found.value.isAdmin
    ensures v.Admit? ==> v.user in users && v.user.isAdmin
    ensures v.Reject? && v.status == 403 <==>
      DecodesToUserId(header, decode) &&
      var found := FindUserById(users, decode(PresentedToken(header).value).payload.userId.value);
      found.None? || !found.value.isAdmin
    ensures UnusableToken(header, decode) ==> v == Reject(401, InvalidTokenMessage)
    ensures v.Reject? && v.status == 403 ==> v.message == AdminOnlyMessage
    ensures v.Reject? ==> (v.status == 401 || v.status == 403)
  {
    match Identify(header, decode, users)
    case Failed(status, message) => Reject(status, message)
    case Looked(found) =>
      if found.None? || !found.value.isAdmin then Reject(403, AdminOnlyMessage) else Admit(found.value)
  }

  /** Every request the admin guard admits, the user guard admits for the same user; and conversely for admins. */
  lemma AdminAdmittedIsTokenAdmitted(header: Option<string>, decode: string -> DecodeOutcome, users: seq<User>)
    ensures AdminRequired(header, decode, users).Admit? <==>
      TokenRequired(header, decode, users).Admit? && TokenRequired(header, decode, users).user.isAdmin
    ensures AdminRequired(header, decode, users).Admit? ==>
      TokenRequired(header, decode, users) == AdminRequired(header, decode, users)
  {
  }

  /** A decoder that accepts every well-signed token until its expiry (a token is expired once `exp <= now`). */
  function DecodeAt(p: Payload, now: int): (d: DecodeOutcome)
    ensures d.Claims? <==> now < p.exp
    ensures d.Claims? ==> d.payload == p
  {
    if p.exp <= now then ExpiredSignature else Claims(p)
  }

  /**
   A token issued to an existing user at `issuedAt` and sent as "Bearer <token>"
   admits that user for exactly three hours and is then refused as expired.
   */
  lemma IssuedTokenLifetime(users: seq<User>, u: User, issuedAt: int, now: int,
                            sign: Payload -> string, decode: string -> DecodeOutcome)
    requires UniqueUserIds(users) && u in users
    requires sign(IssueToken(u, issuedAt)) != ""
    requires !Occurs(BearerPrefix, sign(IssueToken(u, issuedAt)))
    requires decode(sign(IssueToken(u, issuedAt))) == DecodeAt(IssueToken(u, issuedAt), now)
    ensures now < issuedAt + TokenLifetime ==>
      TokenRequired(Some(BearerPrefix + sign(IssueToken(u, issuedAt))), decode, users) == Admit(u)
    ensures now >= issuedAt + TokenLifetime ==>
      TokenRequired(Some(BearerPrefix + sign(IssueToken(u, issuedAt))), decode, users) ==
      Reject(401, ExpiredTokenMessage)
  {
    var token := sign(IssueToken(u, issuedAt));
    StripBearerOfHeader(token);
    assert PresentedToken(Some(BearerPrefix + token)) == Some(token);
    FindUserByIdUnique(users, u);
  }
}
