/** The session handlers: token issue, `registerUser`, `loginUser`,
    `refreshAccessToken` and `logoutUser`, with the cookies they set and the
    browser's cookie store (RFC 6265) that receives them.

    A JSON Web Token (RFC 7519) is modelled by its claims and the key that
    signed it: `Sign` spells the claims `id`, `iat`, `exp` and the key as
    dot-separated decimal fields, and `Verify` reads them back, rejecting a
    malformed token, another key, or a token whose `exp` (section 4.1.4 of
    RFC 7519) is not after the current time. Times are in whole seconds. */
module AuthController {
  import opened Common
  import opened Store

  // ---------------------------------------------------------------- tokens

  /** `expiresIn: '15m'` */
  const AccessLifetime: nat := 15 * 60
  /** `expiresIn: '7d'` */
  const RefreshLifetime: nat := 7 * 24 * 60 * 60
  /** The cookies' `maxAge`, in milliseconds as Express takes it. */
  const AccessCookieMaxAge: nat := 15 * 60 * 1000
  const RefreshCookieMaxAge: nat := 7 * 24 * 60 * 60 * 1000

  /** The payload `{ id }` with the registered claims `iat` and `exp`. */
  datatype Claims = Claims(id: Id, iat: nat, exp: nat)

  /** `jwt.sign(claims, secret)` */
  function Sign(c: Claims, secret: nat): (token: string)
    ensures token != ""
  {
    Dotted(DecimalString(c.id), DecimalString(c.iat), DecimalString(c.exp), DecimalString(secret))
  }

  /** Four fields joined by dots. */
  function Dotted(a: string, b: string, e: string, k: string): string {
    a + ['.'] + (b + ['.'] + (e + ['.'] + k))
  }

  /** The claims and key a token spells, if it is well formed. */
  function Decode(token: string): (r: Option<(Claims, nat)>) {
    var parts := Split(token, '.');
    if |parts| != 4 then None
    else match (NatOf(parts[0]), NatOf(parts[1]), NatOf(parts[2]), NatOf(parts[3]))
      case (Some(id), Some(iat), Some(exp), Some(key)) => Some((Claims(id, iat, exp), key))
      case _ => None
  }

  /** `jwt.verify(token, secret)` at time `now`: `None` where it throws. */
  function Verify(token: string, secret: nat, now: nat): (r: Option<Claims>)
    ensures r.Some? ==> now < r.value.exp
  {
    match Decode(token)
    case None => None
    case Some((c, key)) => if key != secret || now >= c.exp then None else Some(c)
  }

  /** `generateAccessToken(id)` at time `now` */
  function AccessToken(id: Id, now: nat, secret: nat): string {
    Sign(Claims(id, now, now + AccessLifetime), secret)
  }

  /** `generateRefreshToken(id)` at time `now` */
  function RefreshToken(id: Id, now: nat, secret: nat): string {
    Sign(Claims(id, now, now + RefreshLifetime), secret)
  }

  lemma NoDots(n: nat)
    ensures forall i :: 0 <= i < |DecimalString(n)| ==> DecimalString(n)[i] != '.' && DecimalString(n)[i] != ' '
  {
  }

  /** Three dot-free fields joined by dots split back into those fields. */
  lemma ThreeFields(b: string, e: string, k: string)
    requires forall i :: 0 <= i < |b| ==> b[i] != '.'
    requires forall i :: 0 <= i < |e| ==> e[i] != '.'
    requires forall i :: 0 <= i < |k| ==> k[i] != '.'
    ensures Split(b + ['.'] + (e + ['.'] + k), '.') == [b, e, k]
  {
    SplitSingle(k, '.');
    SplitCons(e, '.', k);
    SplitCons(b, '.', e + ['.'] + k);
  }

  /** Four dot-free fields joined by dots split back into those fields. */
  lemma FourFields(a: string, b: string, e: string, k: string)
    requires forall i :: 0 <= i < |a| ==> a[i] != '.'
    requires forall i :: 0 <= i < |b| ==> b[i] != '.'
    requires forall i :: 0 <= i < |e| ==> e[i] != '.'
    requires forall i :: 0 <= i < |k| ==> k[i] != '.'
    ensures Split(Dotted(a, b, e, k), '.') == [a, b, e, k]
  {
    ThreeFields(b, e, k);
    SplitCons(a, '.', b + ['.'] + (e + ['.'] + k));
  }

  lemma DecodeSign(c: Claims, secret: nat)
    ensures Decode(Sign(c, secret)) == Some((c, secret))
  {
    NoDots(c.id); NoDots(c.iat); NoDots(c.exp); NoDots(secret);
    FourFields(DecimalString(c.id), DecimalString(c.iat), DecimalString(c.exp), DecimalString(secret));
    NatOfDecimal(c.id); NatOfDecimal(c.iat); NatOfDecimal(c.exp); NatOfDecimal(secret);
  }

  /** A token verifies exactly under the key that signed it and before its
      `exp`, and then yields the claims it was signed with. */
  lemma VerifySign(c: Claims, secret: nat, key: nat, now: nat)
    ensures Verify(Sign(c, secret), key, now) == if key == secret && now < c.exp then Some(c) else None
  {
    DecodeSign(c, secret);
  }

  /** Access and refresh tokens carry the same payload and differ only in
      `exp`: whatever accepts an access token accepts a refresh token for the
      same user, for seven days instead of fifteen minutes. */
  lemma TokensDifferOnlyInExpiry(id: Id, issued: nat, secret: nat, now: nat)
    ensures Verify(AccessToken(id, issued, secret), secret, now) ==
      if now < issued + 900 then Some(Claims(id, issued, issued + 900)) else None
    ensures Verify(RefreshToken(id, issued, secret), secret, now) ==
      if now < issued + 604800 then Some(Claims(id, issued, issued + 604800)) else None
  {
    VerifySign(Claims(id, issued, issued + AccessLifetime), secret, secret, now);
    VerifySign(Claims(id, issued, issued + RefreshLifetime), secret, secret, now);
  }

  // ---------------------------------------------------------------- cookies

  /** A `Set-Cookie` the handler sends. `maxAge` is in milliseconds and
      `expires` in seconds since the epoch. */
  datatype Cookie = Cookie(
    name: string,
    value: string,
    httpOnly: bool,
    secure: bool,
    sameSite: Option<string>,
    maxAge: Option<nat>,
    expires: Option<nat>)

  /** What a handler answers: the status with its body, and the cookies it sets. */
  datatype Reply<+T> = Reply(response: Response<T>, cookies: seq<Cookie>)

  /** The body of a successful register or login: no token in it. */
  datatype Profile = Profile(id: Id, name: string, email: string, role: string)

  function ProfileOf(u: User): Profile {
    Profile(u.id, u.name, u.email, u.role)
  }

  /** `sendTokenResponse`: a refresh-token cookie living seven days and an
      access-token cookie living fifteen minutes, both `httpOnly`, `lax`, and
      `secure` in production only; the body is the user's profile. */
  function SendTokenResponse(user: User, code: nat, now: nat, secret: nat, production: bool): (r: Reply<Profile>)
    ensures r.response == Success(code, ProfileOf(user))
    ensures |r.cookies| == 2
    ensures r.cookies[0].name == "refreshToken" && r.cookies[1].name == "accessToken"
    ensures forall k :: 0 <= k < 2 ==>
      r.cookies[k].httpOnly && r.cookies[k].secure == production && r.cookies[k].sameSite == Some("lax")
      && r.cookies[k].expires.None?
    ensures r.cookies[0].maxAge == Some(604800000) && r.cookies[1].maxAge == Some(900000)
    ensures r.cookies[0].value == RefreshToken(user.id, now, secret)
    ensures r.cookies[1].value == AccessToken(user.id, now, secret)
  {
    var options := Cookie("refreshToken", RefreshToken(user.id, now, secret), true, production, Some("lax"),
                          Some(RefreshCookieMaxAge), None);
    Reply(Success(code, ProfileOf(user)),
          [options, options.(name := "accessToken", value := AccessToken(user.id, now, secret),
                             maxAge := Some(AccessCookieMaxAge))])
  }

  /** A cookie as the browser keeps it: its value and, unless it is a session
      cookie, the second at which it expires. */
  datatype Stored = Stored(value: string, expiry: Option<nat>)

  type Jar = map<string, Stored>

  /** Receiving one `Set-Cookie` at time `now` (section 5.3 of RFC 6265):
      Max-Age, which Express writes as whole seconds, wins over Expires; a
      cookie whose expiry is not after `now` removes any stored cookie of that
      name. */
  function Receive(jar: Jar, c: Cookie, now: nat): (r: Jar)
    ensures forall n :: n != c.name ==> (n in r <==> n in jar) && (n in jar ==> r[n] == jar[n])
  {
    var expiry := if c.maxAge.Some? then Some(now + c.maxAge.value / 1000) else c.expires;
    if expiry.Some? && expiry.value <= now then jar - {c.name}
    else jar[c.name := Stored(c.value, expiry)]
  }

  function ReceiveAll(jar: Jar, cs: seq<Cookie>, now: nat): Jar
    decreases |cs|
  {
    if cs == [] then jar else ReceiveAll(Receive(jar, cs[0], now), cs[1..], now)
  }

  /** The value the browser sends for `name` at time `now`, if any. */
  function Lookup(jar: Jar, name: string, now: nat): (r: Option<string>)
    ensures r.Some? ==> name in jar && r.value == jar[name].value
  {
    if name in jar && (jar[name].expiry.None? || now < jar[name].expiry.value) then Some(jar[name].value)
    else None
  }

  // ---------------------------------------------------------------- register

  /** What a handler does to the store and what it answers. */
  datatype AuthStep<+T> = AuthStep(tables: Tables, reply: Reply<T>)

  /** The fields of the register body; an absent field is `None`. */
  datatype RegisterBody = RegisterBody(name: Option<string>, email: Option<string>, password: Option<string>, role: Option<string>)

  /** `registerUser`: 400 when a field is missing or empty, before the store is
      consulted; 400 when the email is taken; otherwise a user with the given
      role, or 'student' when none is given, is stored and logged in with 201. */
  function Register(t: Tables, body: RegisterBody, now: nat, secret: nat, production: bool): AuthStep<Profile> {
    if !Truthy(body.name) || !Truthy(body.email) || !Truthy(body.password) then
      AuthStep(t, Reply(Failure(400, "Please add all fields"), []))
    else if FindUserByEmail(t.users, body.email.value).Some? then
      AuthStep(t, Reply(Failure(400, "User already exists"), []))
    else
      var role := if Truthy(body.role) then body.role.value else "student";
      var user := User(t.nextId, body.name.value, body.email.value, body.password.value, role);
      AuthStep(t.(users := t.users + [user], nextId := t.nextId + 1), SendTokenResponse(user, 201, now, secret, production))
  }

  method RegisterIn(db: Db, body: RegisterBody, now: nat, secret: nat, production: bool) returns (reply: Reply<Profile>)
    requires db.Valid()
    modifies db
    ensures db.Valid()
    ensures AuthStep(db.Snapshot(), reply) == Register(old(db.Snapshot()), body, now, secret, production)
  {
    if !Truthy(body.name) || !Truthy(body.email) || !Truthy(body.password) {
      return Reply(Failure(400, "Please add all fields"), []);
    }
    if FindUserByEmail(db.users, body.email.value).Some? {
      return Reply(Failure(400, "User already exists"), []);
    }
    var role := if Truthy(body.role) then body.role.value else "student";
    var user := User(db.nextId, body.name.value, body.email.value, body.password.value, role);
    db.InsertUser(user);
    reply := SendTokenResponse(user, 201, now, secret, production);
  }

  lemma RegisterKeepsConsistent(t: Tables, body: RegisterBody, now: nat, secret: nat, production: bool)
    requires Consistent(t)
    ensures Consistent(Register(t, body, now, secret, production).tables)
  {
    var s := Register(t, body, now, secret, production);
    if s.tables != t {
      var u := s.tables.users[|s.tables.users| - 1];
      assert s.tables.users == t.users + [u];
      forall x | x in s.tables.users ensures x.id < t.nextId + 1 {
        if x != u {
          assert x in t.users;
        }
      }
      DistinctSnoc(t.users, u, UserKey);
      FreshIdKeeps(t);
      UsersKeep(t.(nextId := t.nextId + 1), s.tables.users);
      assert t.(nextId := t.nextId + 1).(users := s.tables.users) == s.tables;
    }
  }

  /** The register outcomes: a missing field or a taken email is 400 and adds
      nobody; otherwise exactly one user is added, under a fresh id, with the
      given role or 'student', and the body is that user's profile. */
  lemma RegisterOutcome(t: Tables, body: RegisterBody, now: nat, secret: nat, production: bool)
    ensures var s := Register(t, body, now, secret, production);
      && (!Truthy(body.name) || !Truthy(body.email) || !Truthy(body.password) ==>
            s == AuthStep(t, Reply(Failure(400, "Please add all fields"), [])))
      && (Truthy(body.name) && Truthy(body.email) && Truthy(body.password) &&
          (exists u :: u in t.users && u.email == body.email.value) ==>
            s == AuthStep(t, Reply(Failure(400, "User already exists"), [])))
      && (s.reply.response.Success? ==>
            && s.reply.response.code == 201
            && (forall u :: u in t.users ==> u.email != body.email.value)
            && s.tables.users == t.users + [User(t.nextId, body.name.value, body.email.value, body.password.value,
                                                 if Truthy(body.role) then body.role.value else "student")]
            && s.reply.response.body == ProfileOf(s.tables.users[|t.users|]))
  {
  }

  /** Registration keeps emails unique. */
  lemma RegisterKeepsEmailsUnique(t: Tables, body: RegisterBody, now: nat, secret: nat, production: bool)
    requires forall i, j :: 0 <= i < j < |t.users| ==> t.users[i].email != t.users[j].email
    ensures var us := Register(t, body, now, secret, production).tables.users;
      forall i, j :: 0 <= i < j < |us| ==> us[i].email != us[j].email
  {
    var s := Register(t, body, now, secret, production);
    if s.tables != t {
      var us := s.tables.users;
      forall i, j | 0 <= i < j < |us| ensures us[i].email != us[j].email {
        if j == |t.users| {
          assert us[i] in t.users;
        }
      }
    }
  }

  // ---------------------------------------------------------------- login

  /** `loginUser`: the user with that email whose stored credential matches
      (`matchPassword` is modelled as equality with the stored credential) is
      logged in with 200; an unknown email and a wrong password both get the
      same 401. The store is not changed. */
  function Login(t: Tables, email: string, password: string, now: nat, secret: nat, production: bool): (r: Reply<Profile>)
    ensures r.response.Success? <==>
      exists i :: 0 <= i < |t.users| && t.users[i].email == email && t.users[i].password == password &&
        forall j :: 0 <= j < i ==> t.users[j].email != email
    ensures r.response.Failure? ==> r == Reply(Failure(401, "Invalid credentials"), [])
  {
    match FindUserByEmail(t.users, email)
    case Some(i) =>
      if t.users[i].password == password then SendTokenResponse(t.users[i], 200, now, secret, production)
      else Reply(Failure(401, "Invalid credentials"), [])
    case None => Reply(Failure(401, "Invalid credentials"), [])
  }

  /** With unique emails, login succeeds exactly for a stored email and its
      credential, and the profile is that user's. */
  lemma LoginCorrect(t: Tables, email: string, password: string, now: nat, secret: nat, production: bool)
    requires forall i, j :: 0 <= i < j < |t.users| ==> t.users[i].email != t.users[j].email
    ensures var r := Login(t, email, password, now, secret, production);
      && (r.response.Success? <==> exists u :: u in t.users && u.email == email && u.password == password)
      && (r.response.Success? ==>
            && r.response.code == 200 && r.response.body.email == email
            && (exists u :: u in t.users && ProfileOf(u) == r.response.body))
  {
    var r := Login(t, email, password, now, secret, production);
    if exists u :: u in t.users && u.email == email && u.password == password {
      var u :| u in t.users && u.email == email && u.password == password;
      var k :| 0 <= k < |t.users| && t.users[k] == u;
      var i := FindUserByEmail(t.users, email).value;
      assert i == k;
    }
    if r.response.Success? {
      assert t.users[FindUserByEmail(t.users, email).value] in t.users;
    }
  }

  /** Issued at register or login, each cookie lives exactly as long as its
      token: at any later time the browser sends it while, and only while, the
      token it holds still verifies. */
  lemma CookiesLiveAsLongAsTokens(user: User, code: nat, now: nat, secret: nat, production: bool, jar: Jar, later: nat)
    requires later >= now
    ensures var j := ReceiveAll(jar, SendTokenResponse(user, code, now, secret, production).cookies, now);
      && (Lookup(j, "accessToken", later).Some? <==> later < now + 900)
      && (Lookup(j, "refreshToken", later).Some? <==> later < now + 604800)
      && (Lookup(j, "accessToken", later).Some? ==>
            Verify(Lookup(j, "accessToken", later).value, secret, later) == Some(Claims(user.id, now, now + 900)))
      && (Lookup(j, "refreshToken", later).Some? ==>
            Verify(Lookup(j, "refreshToken", later).value, secret, later) == Some(Claims(user.id, now, now + 604800)))
  {
    var cs := SendTokenResponse(user, code, now, secret, production).cookies;
    ReceiveTwo(jar, cs, now);
    TokensDifferOnlyInExpiry(user.id, now, secret, later);
  }

  lemma ReceiveTwo(jar: Jar, cs: seq<Cookie>, now: nat)
    requires |cs| == 2
    ensures ReceiveAll(jar, cs, now) == Receive(Receive(jar, cs[0], now), cs[1], now)
  {
    var j1 := Receive(jar, cs[0], now);
    assert cs[1..][0] == cs[1] && cs[1..][1..] == [];
    assert ReceiveAll(j1, cs[1..], now) == ReceiveAll(Receive(j1, cs[1], now), [], now);
  }

  // ---------------------------------------------------------------- refresh

  /** `refreshAccessToken`: 401 without a refresh cookie, 401 when it does not
      verify, 401 when its user is gone; otherwise a new access-token cookie
      (`strict`, fifteen minutes) and `{ success: true }`. The refresh token is
      not reissued. */
  function Refresh(t: Tables, cookie: Option<string>, now: nat, secret: nat, production: bool): (r: Reply<bool>)
    ensures r.response.Success? ==> |r.cookies| == 1 && r.cookies[0].name == "accessToken"
    ensures r.response.Failure? ==> r.cookies == [] && r.response.code == 401
  {
    if !Truthy(cookie) then Reply(Failure(401, "Not authorized, no refresh token"), [])
    else match Verify(cookie.value, secret, now)
      case None => Reply(Failure(401, "Not authorized, token failed"), [])
      case Some(claims) =>
        match FindUser(t.users, claims.id)
        case None => Reply(Failure(401, "User not found"), [])
        case Some(i) =>
          Reply(Success(200, true),
                [Cookie("accessToken", AccessToken(t.users[i].id, now, secret), true, production, Some("strict"),
                        Some(AccessCookieMaxAge), None)])
  }

  /** Refresh succeeds exactly for a cookie signed with the server's key,
      not yet expired, whose user is still stored; the new access token is
      for that user. */
  lemma RefreshOutcome(t: Tables, cookie: Option<string>, now: nat, secret: nat, production: bool)
    ensures var r := Refresh(t, cookie, now, secret, production);
      && (r.response.Success? <==>
            Truthy(cookie) && Verify(cookie.value, secret, now).Some? &&
            exists u :: u in t.users && u.id == Verify(cookie.value, secret, now).value.id)
      && (r.response.Success? ==>
            (Verify(r.cookies[0].value, secret, now) ==
             Some(Claims(Verify(cookie.value, secret, now).value.id, now, now + 900))))
      && (!Truthy(cookie) ==> r.response == Failure(401, "Not authorized, no refresh token"))
  {
    var r := Refresh(t, cookie, now, secret, production);
    if r.response.Success? {
      var c := Verify(cookie.value, secret, now).value;
      var i := FindUser(t.users, c.id).value;
      TokensDifferOnlyInExpiry(t.users[i].id, now, secret, now);
      assert t.users[i] in t.users;
    }
  }

  /** No rotation: after a refresh the browser still holds the same refresh
      token, so one refresh token serves for its whole seven days. */
  lemma RefreshKeepsRefreshToken(t: Tables, jar: Jar, now: nat, secret: nat, production: bool)
    ensures var r := Refresh(t, Lookup(jar, "refreshToken", now), now, secret, production);
      var j := ReceiveAll(jar, r.cookies, now);
      ("refreshToken" in j <==> "refreshToken" in jar) &&
      ("refreshToken" in jar ==> j["refreshToken"] == jar["refreshToken"])
  {
    var r := Refresh(t, Lookup(jar, "refreshToken", now), now, secret, production);
    if r.cookies != [] {
      assert r.cookies[1..] == [];
    }
  }

  // ---------------------------------------------------------------- logout

  /** `logoutUser`: always 200, both cookies overwritten with '' expiring at the epoch. */
  function Logout(): (r: Reply<string>)
    ensures r.response == Success(200, "Logged out successfully")
    ensures |r.cookies| == 2 && r.cookies[0].name == "accessToken" && r.cookies[1].name == "refreshToken"
    ensures forall k :: 0 <= k < 2 ==> r.cookies[k].value == "" && r.cookies[k].expires == Some(0) && r.cookies[k].maxAge.None?
  {
    var cleared := Cookie("accessToken", "", true, false, None, None, Some(0));
    Reply(Success(200, "Logged out successfully"), [cleared, cleared.(name := "refreshToken")])
  }

  /** After logout the browser holds neither token, whatever it held before. */
  lemma LogoutClearsJar(jar: Jar, now: nat, later: nat)
    ensures var j := ReceiveAll(jar, Logout().cookies, now);
      "accessToken" !in j && "refreshToken" !in j && Lookup(j, "accessToken", later).None? &&
      Lookup(j, "refreshToken", later).None?
  {
    var cs := Logout().cookies;
    ReceiveTwo(jar, cs, now);
    var j1 := Receive(jar, cs[0], now);
    assert j1 == jar - {"accessToken"};
    assert Receive(j1, cs[1], now) == j1 - {"refreshToken"};
  }
}
