/** The route guards: `protect`, which authenticates a request from the
    `Authorization: Bearer <token>` header (section 2.1 of RFC 6750), and
    `authorize`, which admits a list of roles. */
module AuthMiddleware {
  import opened Common
  import opened Store
  import opened AuthController

  /** What a guard does with a request: hand it to the next handler with the
      authenticated user, or stop it. `sent` lists every response the guard
      writes, in order: the client receives the first, and a second write
      fails because the headers are already sent. */
  datatype Gate = Next(user: Profile) | Stop(sent: seq<Response<string>>)

  /** `header.split(' ')[1]`, `undefined` when there is no space. */
  function BearerToken(header: string): (r: Option<string>) {
    var parts := Split(header, ' ');
    if |parts| >= 2 then Some(parts[1]) else None
  }

  /** The `try` block of `protect`: verify the token, then load the user. A
      user that is gone makes `req.user.email` throw before the null check,
      so every failure here is the catch's plain 401. */
  function Authenticate(t: Tables, token: Option<string>, now: nat, secret: nat): (g: Gate)
    ensures g.Stop? ==> g.sent == [Failure(401, "Not authorized")]
  {
    if token.None? then Stop([Failure(401, "Not authorized")])
    else match Verify(token.value, secret, now)
      case None => Stop([Failure(401, "Not authorized")])
      case Some(c) =>
        match FindUser(t.users, c.id)
        case None => Stop([Failure(401, "Not authorized")])
        case Some(i) => Next(ProfileOf(t.users[i]))
  }

  /** `protect`: only the header is read; a header that does not start with
      "Bearer" is 401 "no token"; otherwise the token is checked, and when
      the token is empty or missing the "no token" answer is written as well,
      after the first. */
  function Protect(t: Tables, header: Option<string>, now: nat, secret: nat): (g: Gate)
    ensures g.Stop? ==> |g.sent| >= 1 && forall k :: 0 <= k < |g.sent| ==> g.sent[k].Status() == 401
  {
    if header.Some? && StartsWith(header.value, "Bearer") then
      var token := BearerToken(header.value);
      var first := Authenticate(t, token, now, secret);
      if Truthy(token) then first
      else match first
        case Next(_) => first
        case Stop(sent) => Stop(sent + [Failure(401, "Not authorized, no token")])
    else Stop([Failure(401, "Not authorized, no token")])
  }

  /** An empty string is no token. */
  lemma EmptyTokenFails(secret: nat, now: nat)
    ensures Verify("", secret, now).None?
  {
    assert TakeUntil("", {'.'}) == "";
  }

  /** Without a "Bearer" header the handler never runs and the answer is the
      single "no token" 401. */
  lemma NoHeaderNoEntry(t: Tables, header: Option<string>, now: nat, secret: nat)
    requires header.None? || !StartsWith(header.value, "Bearer")
    ensures Protect(t, header, now, secret) == Stop([Failure(401, "Not authorized, no token")])
  {
  }

  /** A header that is just "Bearer" makes `protect` answer twice: the
      verification failure first, then the "no token" answer on a response
      that was already sent. */
  lemma BareBearerAnswersTwice(t: Tables, now: nat, secret: nat)
    ensures Protect(t, Some("Bearer"), now, secret) ==
      Stop([Failure(401, "Not authorized"), Failure(401, "Not authorized, no token")])
  {
    assert "Bearer"[..6] == "Bearer";
    SplitSingle("Bearer", ' ');
  }

  /** `Bearer <token>` passes exactly when the token verifies now and its
      user is still stored, and the next handler sees that user. */
  lemma ProtectAcceptsExactly(t: Tables, token: string, now: nat, secret: nat)
    requires token != [] && forall i :: 0 <= i < |token| ==> token[i] != ' '
    ensures var g := Protect(t, Some("Bearer " + token), now, secret);
      && (g.Next? <==> Verify(token, secret, now).Some? && exists u :: u in t.users && u.id == Verify(token, secret, now).value.id)
      && (g.Next? ==> exists u :: u in t.users && u.id == Verify(token, secret, now).value.id && g.user == ProfileOf(u))
      && (g.Stop? ==> g.sent == [Failure(401, "Not authorized")])
  {
    HeaderToken(token);
    var c := Verify(token, secret, now);
    if c.Some? {
      var found := FindUser(t.users, c.value.id);
      if found.Some? {
        assert t.users[found.value] in t.users;
      }
    }
  }

  lemma HeaderToken(token: string)
    requires forall i :: 0 <= i < |token| ==> token[i] != ' '
    ensures StartsWith("Bearer " + token, "Bearer")
    ensures BearerToken("Bearer " + token) == Some(token)
  {
    var h := "Bearer " + token;
    assert h[..6] == "Bearer";
    assert h == "Bearer" + [' '] + token;
    SplitCons("Bearer", ' ', token);
    SplitSingle(token, ' ');
  }

  /** A signed token has no space in it. */
  lemma TokenHasNoSpace(c: Claims, secret: nat)
    ensures forall i :: 0 <= i < |Sign(c, secret)| ==> Sign(c, secret)[i] != ' '
  {
    NoDots(c.id); NoDots(c.iat); NoDots(c.exp); NoDots(secret);
  }

  /** A refresh token passes `protect` as if it were an access token, for
      its whole seven days. */
  lemma RefreshTokenPassesProtect(t: Tables, u: User, issued: nat, now: nat, secret: nat)
    requires FindUser(t.users, u.id).Some? && t.users[FindUser(t.users, u.id).value] == u
    requires issued <= now < issued + 604800
    ensures Protect(t, Some("Bearer " + RefreshToken(u.id, issued, secret)), now, secret) == Next(ProfileOf(u))
  {
    var tok := RefreshToken(u.id, issued, secret);
    TokenHasNoSpace(Claims(u.id, issued, issued + RefreshLifetime), secret);
    HeaderToken(tok);
    TokensDifferOnlyInExpiry(u.id, issued, secret, now);
  }

  // ---------------------------------------------------------------- authorize

  /** `authorize(...roles)`: the request goes on iff the user's role is listed. */
  function Authorize(roles: seq<string>, user: Profile): (g: Gate)
    ensures g.Next? <==> user.role in roles
    ensures g.Next? ==> g.user == user
    ensures g.Stop? ==>
      g.sent == [Failure(403, "User role " + user.role + " is not authorized to access this route")]
  {
    if user.role in roles then Next(user)
    else Stop([Failure(403, "User role " + user.role + " is not authorized to access this route")])
  }

  /** `protect` then `authorize(...roles)`, as the routes chain them. */
  function Guard(t: Tables, header: Option<string>, roles: seq<string>, now: nat, secret: nat): Gate {
    match Protect(t, header, now, secret)
    case Next(user) => Authorize(roles, user)
    case stop => stop
  }

  /** A guarded handler runs only for an authenticated user whose role is listed. */
  lemma GuardAdmits(t: Tables, header: Option<string>, roles: seq<string>, now: nat, secret: nat)
    ensures var g := Guard(t, header, roles, now, secret);
      g.Next? <==> Protect(t, header, now, secret).Next? && Protect(t, header, now, secret).user.role in roles
  {
  }

  // ---------------------------------------------------------------- cookies

  /** Finding: the browser client sends its session only as cookies and never
      an `Authorization` header, so for a logged-in user every protected
      route answers 401, however fresh the cookies are. */
  lemma CookieSessionRejected(t: Tables, user: User, issuedAt: nat, now: nat, secret: nat, production: bool, jar: Jar)
    requires issuedAt <= now < issuedAt + 900
    requires FindUser(t.users, user.id).Some? && t.users[FindUser(t.users, user.id).value] == user
    ensures var j := ReceiveAll(jar, SendTokenResponse(user, 200, issuedAt, secret, production).cookies, issuedAt);
      && Lookup(j, "accessToken", now).Some?
      && Verify(Lookup(j, "accessToken", now).value, secret, now).Some?
      && Protect(t, None, now, secret) == Stop([Failure(401, "Not authorized, no token")])
  {
    CookiesLiveAsLongAsTokens(user, 200, issuedAt, secret, production, jar, now);
  }

  /** `protect` as its callers evidently need it: the header when there is
      one, otherwise the `accessToken` cookie the login set. */
  function ProtectWithCookie(t: Tables, header: Option<string>, jar: Jar, now: nat, secret: nat): (g: Gate)
    ensures header.Some? && StartsWith(header.value, "Bearer") ==> g == Protect(t, header, now, secret)
  {
    if header.Some? && StartsWith(header.value, "Bearer") then Protect(t, header, now, secret)
    else match Lookup(jar, "accessToken", now)
      case None => Stop([Failure(401, "Not authorized, no token")])
      case Some(token) => Authenticate(t, Some(token), now, secret)
  }

  /** With the cookie fallback, a session set by login is admitted for the
      access token's fifteen minutes, as that user. */
  lemma CookieSessionAdmitted(t: Tables, user: User, issuedAt: nat, now: nat, secret: nat, production: bool, jar: Jar)
    requires issuedAt <= now < issuedAt + 900
    requires FindUser(t.users, user.id).Some? && t.users[FindUser(t.users, user.id).value] == user
    ensures var j := ReceiveAll(jar, SendTokenResponse(user, 200, issuedAt, secret, production).cookies, issuedAt);
      ProtectWithCookie(t, None, j, now, secret) == Next(ProfileOf(user))
  {
    CookiesLiveAsLongAsTokens(user, 200, issuedAt, secret, production, jar, now);
  }
}
