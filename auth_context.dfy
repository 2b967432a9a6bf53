/** The client's session context: a response interceptor that answers a
    401 by refreshing the access token and re-issuing the request once, and
    the provider's `user`/`loading` state with the initial check, login,
    register and logout.

    The network is a script: the answers the server will give, in the order
    the requests are issued. A request whose answer has not come yet when
    the script ends is still pending (`Hang`). */
module AuthContext {
  import opened Common
  import opened AuthController

  datatype Endpoint = Me | LoginRoute | RegisterRoute | RefreshRoute | LogoutRoute | Other(path: string)

  /** One answer of the server: a status and, on success, the user it names. */
  datatype Answer = Answer(status: nat, body: Profile)

  /** How a request settles: resolved with a body, rejected with a status,
      or still waiting. */
  datatype Outcome = Ok(body: Profile) | Err(status: nat) | Hang

  /** axios resolves only 2xx answers. */
  predicate Succeeds(status: nat) {
    200 <= status < 300
  }

  /** What a request did: how it settled, the answers left over, and whether
      a failed refresh cleared the session on the way. */
  datatype Trace = Trace(outcome: Outcome, rest: seq<Answer>, cleared: bool)

  /** A request through the interceptor, as written: a 401 on a request not
      yet marked is marked, a refresh is sent with a fresh (unmarked) config
      through the same interceptor, and on success the request is re-issued
      once; if the refresh is rejected the session is cleared and the refresh
      error is passed on. */
  function Dispatch(retry: bool, answers: seq<Answer>): (r: Trace)
    ensures |r.rest| <= |answers|
    ensures r.outcome.Hang? ==> r.rest == []
    decreases |answers|
  {
    if answers == [] then Trace(Hang, [], false)
    else
      var a := answers[0];
      if Succeeds(a.status) then Trace(Ok(a.body), answers[1..], false)
      else if a.status == 401 && !retry then
        var refresh := Dispatch(false, answers[1..]);
        match refresh.outcome
        case Hang => refresh
        case Ok(_) =>
          var again := Dispatch(true, refresh.rest);
          Trace(again.outcome, again.rest, refresh.cleared || again.cleared)
        case Err(s) => Trace(Err(s), refresh.rest, true)
      else Trace(Err(a.status), answers[1..], false)
  }

  /** A request already marked, or failing with anything but 401, is
      rejected with its own error, with no refresh. */
  lemma MarkedOrOtherErrorRejected(retry: bool, a: Answer, rest: seq<Answer>)
    requires !Succeeds(a.status) && (retry || a.status != 401)
    ensures Dispatch(retry, [a] + rest) == Trace(Err(a.status), rest, false)
  {
    assert ([a] + rest)[1..] == rest;
  }

  /** A 401 followed by a successful refresh re-issues the request exactly
      once: the second answer decides, and a second 401 is final. */
  lemma RetriedOnce(a: Answer, refresh: Answer, b: Answer, more: seq<Answer>)
    requires a.status == 401 && Succeeds(refresh.status)
    ensures Dispatch(false, [a, refresh, b] + more) ==
      Trace(if Succeeds(b.status) then Ok(b.body) else Err(b.status), more, false)
  {
    var s := [a, refresh, b] + more;
    assert s[1..] == [refresh, b] + more;
    assert Dispatch(false, s[1..]) == Trace(Ok(refresh.body), [b] + more, false);
    assert ([b] + more)[1..] == more;
  }

  /** A refresh rejected with anything but 401 clears the session and its
      error is what the original request is rejected with. */
  lemma RefreshFailureClears(a: Answer, refresh: Answer, more: seq<Answer>)
    requires a.status == 401 && !Succeeds(refresh.status) && refresh.status != 401
    ensures Dispatch(false, [a, refresh] + more) == Trace(Err(refresh.status), more, true)
  {
    var s := [a, refresh] + more;
    assert s[1..] == [refresh] + more;
    assert ([refresh] + more)[1..] == more;
  }

  /** Finding: the refresh request is itself unmarked, so a 401 from it
      starts another refresh. While the server keeps answering 401 (no
      refresh cookie, or the access cookie never reaching `protect`), the
      request never settles, however many answers come. */
  lemma {:induction false} UnauthorizedForeverHangs(retry: bool, answers: seq<Answer>)
    requires answers != [] ==> !retry
    requires forall k :: 0 <= k < |answers| ==> answers[k].status == 401
    ensures Dispatch(retry, answers) == Trace(Hang, [], false)
    decreases |answers|
  {
    if answers != [] {
      UnauthorizedForeverHangs(false, answers[1..]);
    }
  }

  /** The interceptor as evidently intended: the refresh request is sent
      already marked, so a 401 from it is final. */
  function DispatchFixed(retry: bool, answers: seq<Answer>): (r: Trace)
    ensures |r.rest| <= |answers|
    decreases |answers|
  {
    if answers == [] then Trace(Hang, [], false)
    else
      var a := answers[0];
      if Succeeds(a.status) then Trace(Ok(a.body), answers[1..], false)
      else if a.status == 401 && !retry then
        var refresh := DispatchFixed(true, answers[1..]);
        match refresh.outcome
        case Hang => refresh
        case Ok(_) =>
          var again := DispatchFixed(true, refresh.rest);
          Trace(again.outcome, again.rest, refresh.cleared || again.cleared)
        case Err(s) => Trace(Err(s), refresh.rest, true)
      else Trace(Err(a.status), answers[1..], false)
  }

  /** A marked request uses one answer. */
  lemma MarkedTakesOne(answers: seq<Answer>)
    requires answers != []
    ensures DispatchFixed(true, answers).outcome != Hang
    ensures DispatchFixed(true, answers).rest == answers[1..]
    ensures !DispatchFixed(true, answers).cleared
  {
  }

  /** With the fix, every request settles within three answers: the
      request, the refresh and the one retry. */
  lemma FixedSettles(answers: seq<Answer>)
    requires |answers| >= 3
    ensures DispatchFixed(false, answers).outcome != Hang
    ensures |DispatchFixed(false, answers).rest| >= |answers| - 3
  {
    var a := answers[0];
    if !Succeeds(a.status) && a.status == 401 {
      MarkedTakesOne(answers[1..]);
      var refresh := DispatchFixed(true, answers[1..]);
      if refresh.outcome.Ok? {
        MarkedTakesOne(refresh.rest);
      }
    }
  }

  /** The fix changes nothing unless the refresh itself is answered 401. */
  lemma FixedAgreesOtherwise(retry: bool, answers: seq<Answer>)
    requires |answers| >= 2 ==> answers[1].status != 401
    ensures DispatchFixed(retry, answers) == Dispatch(retry, answers)
  {
    if |answers| >= 2 {
      var tail := answers[1..];
      assert Dispatch(false, tail) == DispatchFixed(true, tail);
    }
  }

  // ---------------------------------------------------------------- provider

  /** The request config; the interceptor writes `_retry` into it. */
  class Config {
    var endpoint: Endpoint
    var retry: bool

    constructor (endpoint: Endpoint)
      ensures this.endpoint == endpoint && !retry
    {
      this.endpoint := endpoint;
      this.retry := false;
    }
  }

  /** The provider's state, as the pages see it. */
  datatype View = View(user: Option<Profile>, loading: bool)

  /** The state after a failed refresh's catch, if one ran. */
  function Cleared(v: View, tr: Trace): View {
    if tr.cleared then View(None, false) else v
  }

  /** The initial check: `user` becomes the `/me` body, or null on any
      failure, and `loading` ends false either way, unless the request never
      settles. */
  function AfterCheck(v: View, answers: seq<Answer>): (r: View)
    ensures Dispatch(false, answers).outcome.Ok? ==> r == View(Some(Dispatch(false, answers).outcome.body), false)
    ensures Dispatch(false, answers).outcome.Err? ==> r == View(None, false)
    ensures Dispatch(false, answers).outcome.Hang? ==> r.loading == (v.loading && !Dispatch(false, answers).cleared)
  {
    var tr := Dispatch(false, answers);
    match tr.outcome
    case Ok(p) => View(Some(p), false)
    case Err(_) => View(None, false)
    case Hang => Cleared(v, tr)
  }

  /** Finding, seen from the page: at start-up with no session every answer
      is 401, the check never settles, `loading` stays true and nothing
      below the provider is ever rendered. */
  lemma StartupWithoutSessionNeverRenders(answers: seq<Answer>)
    requires forall k :: 0 <= k < |answers| ==> answers[k].status == 401
    ensures AfterCheck(View(None, true), answers) == View(None, true)
  {
    UnauthorizedForeverHangs(false, answers);
  }

  class AuthProvider {
    var user: Option<Profile>
    var loading: bool
    /** The answers the server has yet to give. */
    var network: seq<Answer>

    constructor (answers: seq<Answer>)
      ensures user == None && loading && network == answers
    {
      user := None;
      loading := true;
      network := answers;
    }

    /** Children render only once loading has ended. */
    predicate RendersChildren()
      reads this
    {
      !loading
    }

    /** One request through the interceptor: marks `c` on a first 401,
      refreshes with a fresh config, re-issues `c` once, or clears the
      session when the refresh fails. */
    method Request(c: Config) returns (o: Outcome)
      modifies this, c
      ensures var tr := Dispatch(old(c.retry), old(network));
        && o == tr.outcome && network == tr.rest
        && View(user, loading) == Cleared(old(View(user, loading)), tr)
      ensures c.endpoint == old(c.endpoint)
      ensures c.retry == (old(c.retry) || (old(network) != [] && old(network)[0].status == 401))
      decreases |network|
    {
      if network == [] {
        return Hang;
      }
      var a := network[0];
      network := network[1..];
      if Succeeds(a.status) {
        return Ok(a.body);
      }
      if a.status == 401 && !c.retry {
        c.retry := true;
        var refresh := new Config(RefreshRoute);
        var r := Request(refresh);
        match r
        case Hang =>
          return Hang;
        case Ok(_) =>
          o := Request(c);
          return;
        case Err(s) =>
          user := None;
          loading := false;
          return Err(s);
      }
      return Err(a.status);
    }

    /** `checkAuth`, run on mount. */
    method CheckAuth()
      modifies this
      ensures View(user, loading) == AfterCheck(old(View(user, loading)), old(network))
      ensures network == Dispatch(false, old(network)).rest
    {
      var c := new Config(Me);
      var o := Request(c);
      match o
      case Ok(p) =>
        user := Some(p);
        loading := false;
      case Err(_) =>
        user := None;
        loading := false;
      case Hang =>
    }

    /** `login` (and, with another route, `register`): `user` becomes the
      response body; a rejection leaves `user` as the interceptor left it
      and is passed to the caller. */
    method SignIn(route: Endpoint) returns (o: Outcome)
      requires route == LoginRoute || route == RegisterRoute
      modifies this
      ensures var tr := Dispatch(false, old(network));
        && o == tr.outcome && network == tr.rest
        && (o.Ok? ==> user == Some(o.body) && loading == Cleared(old(View(user, loading)), tr).loading)
        && (!o.Ok? ==> View(user, loading) == Cleared(old(View(user, loading)), tr))
    {
      var c := new Config(route);
      o := Request(c);
      if o.Ok? {
        user := Some(o.body);
      }
    }

    /** `logout`: `user` becomes null whether or not the request failed,
      once it has settled. */
    method Logout() returns (o: Outcome)
      modifies this
      ensures var tr := Dispatch(false, old(network));
        && o == tr.outcome && network == tr.rest
        && (!o.Hang? ==> user == None)
        && loading == Cleared(old(View(user, loading)), tr).loading
    {
      var c := new Config(LogoutRoute);
      o := Request(c);
      if !o.Hang? {
        user := None;
      }
    }
  }
}
