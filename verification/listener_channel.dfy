/**
 * The local-listener channel (`AuthServer`): a small HTTP server on
 * 127.0.0.1 hands each incoming request, in arrival order, to the
 * validator. There is no routing: the request target is re-rooted at
 * `http://localhost` and only its query (or, for a POST, its form body)
 * is looked at. The confirmation page is sent only from inside the
 * validator, once the CSRF state has matched.
 */
module ListenerChannel {
  import opened Wrappers
  import opened Callback
  import opened Timer
  import BrowserChannel

  const ConfirmationPage: string :=
    "<!doctype html><html lang=\"en\"><script>window.close();</script><head><meta charset=utf-8><title>Doken</title></head><body>Successfully signed in. Close current tab.</body></html>"

  /** `tiny_http::Method`, already parsed. */
  datatype Method = Get | Post | Other(name: string)

  /**
   * One incoming request. `query` is the decoded query of the target;
   * `body` is the decoded form body, or None when it cannot be read as a
   * string. `at`: milliseconds since the timer started; `now`: wall clock
   * when handled.
   */
  datatype Request = Request(
    httpMethod: Method,
    path: string,
    query: Pairs,
    body: Option<Pairs>,
    at: nat,
    now: Instant)

  /** A validator's verdict, and whether it sent the confirmation page first. */
  datatype Handled<T> = Handled(verdict: Verdict<T>, confirmed: bool)

  /** What the requester gets from the validator. */
  datatype Reply = Confirmation | NoReply {

    /** The HTML written back, if any. */
    function Body(): Option<string> {
      if Confirmation? then Some(ConfirmationPage) else None
    }
  }

  /**
   * `get_code`'s closure: path and method are not looked at; the page is
   * sent exactly when the code is accepted.
   */
  function GetCode(secret: string, req: Request): (h: Handled<string>)
    ensures !h.verdict.Panic?
    ensures h.confirmed <==> h.verdict.Accept?
    ensures h.verdict.Accept? <==> HasName(req.query, "code") && Lookup(req.query, "state") == Some(secret)
    ensures h.verdict.Accept? ==> Lookup(req.query, "code") == Some(h.verdict.value)
  {
    match CodeFromQuery(req.query, secret)
    case Some(code) => Handled(Accept(code), true)
    case None => Handled(Ignore, false)
  }

  /** Any path, any method: only the query decides. */
  lemma GetCodeIgnoresPath(secret: string, req: Request, path: string, m: Method)
    ensures GetCode(secret, req.(path := path, httpMethod := m)) == GetCode(secret, req)
  {
  }

  /** Both channels decide a code callback the same way on the same query. */
  lemma GetCodeAgreesWithBrowser(secret: string, req: Request, e: BrowserChannel.Event)
    requires e.url.query == req.query
    ensures GetCode(secret, req).verdict == BrowserChannel.GetCode(secret, e)
  {
  }

  /**
   * `get_token_data`'s closure: anything but POST is ignored; an
   * unreadable body panics; then the form check. The page is sent as soon
   * as the state matches, before `expires_in` is parsed, so a bad number
   * is answered with the page and then panics.
   */
  function GetTokenData(secret: string, req: Request): (h: Handled<TokenInfo>)
    ensures req.httpMethod != Post ==> h == Handled(Ignore, false)
    ensures req.httpMethod == Post && req.body.None? ==> h == Handled(Panic(UnreadableBody), false)
    ensures req.httpMethod == Post && req.body.Some? ==> h.verdict == TokenFromForm(req.body.value, secret, req.now)
    ensures h.confirmed <==>
      && req.httpMethod == Post
      && req.body.Some?
      && HasName(req.body.value, "access_token")
      && HasName(req.body.value, "expires_in")
      && Lookup(req.body.value, "state") == Some(secret)
    ensures h.verdict.Accept? ==> h.confirmed
    ensures h.confirmed && !h.verdict.Accept? ==> h.verdict == Panic(BadExpiresIn)
  {
    if req.httpMethod != Post then Handled(Ignore, false)
    else
      match req.body
      case None => Handled(Panic(UnreadableBody), false)
      case Some(form) =>
        match CheckForm(form, secret)
        case Missing(p) => Handled(Panic(p), false)
        case Mismatch => Handled(Ignore, false)
        case Matched(accessToken, expiresIn) => Handled(FinishToken(accessToken, expiresIn, req.now), true)
  }

  /** A POST body both channels receive is decided the same way. */
  lemma GetTokenDataAgreesWithBrowser(secret: string, req: Request, e: BrowserChannel.Event)
    requires req.httpMethod == Post && e.httpMethod == "POST"
    requires req.body.Some? && e.postData == req.body && e.now == req.now
    ensures GetTokenData(secret, req).verdict == BrowserChannel.GetTokenData(secret, e)
  {
  }

  /** The loop's record: replies sent, why it stopped, and how many requests it took. */
  datatype Serve<T> = Serve(replies: seq<Reply>, stop: Stop<T>, inspected: nat)

  function ReplyFor<T>(h: Handled<T>): Reply {
    if h.confirmed then Confirmation else NoReply
  }

  /** A request the validator does not ignore: it either resolves the loop or kills it. */
  predicate Resolves<T>(req: Request, f: Request -> Handled<T>) {
    !f(req).verdict.Ignore?
  }

  /**
   * The accept loop over `incoming_requests()`: requests in arrival
   * order; an accepted one is sent to the race and the loop breaks; an
   * ignored one is dropped and the loop goes on; a validator panic ends
   * the spawned task.
   */
  function AcceptLoop<T>(requests: seq<Request>, f: Request -> Handled<T>): (s: Serve<T>)
    ensures s.inspected <= |requests|
    ensures |s.replies| == s.inspected
    ensures s.stop.Exhausted? ==> s.inspected == |requests|
    ensures !s.stop.Exhausted? ==>
      && 0 < s.inspected
      && Resolves(requests[s.inspected - 1], f)
      && s.stop == StopFor(f(requests[s.inspected - 1]).verdict)
    decreases |requests|
  {
    if |requests| == 0 then Serve([], Exhausted, 0)
    else
      var h := f(requests[0]);
      match h.verdict
      case Accept(v) => Serve([ReplyFor(h)], Accepted(v), 1)
      case Panic(p) => Serve([ReplyFor(h)], Crashed(p), 1)
      case Ignore =>
        var rest := AcceptLoop(requests[1..], f);
        Serve([ReplyFor(h)] + rest.replies, rest.stop, rest.inspected + 1)
  }

  /** The loop ends at the first request the validator does not ignore, if any. */
  lemma {:induction false} AcceptLoopStopsAtFirst<T>(requests: seq<Request>, f: Request -> Handled<T>)
    ensures var s := AcceptLoop(requests, f);
      && (s.stop.Exhausted? <==> forall j | 0 <= j < |requests| :: !Resolves(requests[j], f))
      && forall j | 0 <= j < s.inspected - 1 :: !Resolves(requests[j], f)
  {
    if |requests| > 0 && !Resolves(requests[0], f) {
      AcceptLoopStopsAtFirst(requests[1..], f);
      assert forall j | 1 <= j < |requests| :: requests[j] == requests[1..][j - 1];
    }
  }

  /**
   * Each request taken gets the page iff its validator sent it; ignored
   * requests get nothing from the validator.
   */
  lemma {:induction false} AcceptLoopReplies<T>(requests: seq<Request>, f: Request -> Handled<T>)
    ensures var s := AcceptLoop(requests, f);
      forall i | 0 <= i < |s.replies| ::
        && s.replies[i] == ReplyFor(f(requests[i]))
        && (s.replies[i].Body() == Some(ConfirmationPage) <==> f(requests[i]).confirmed)
        && (s.replies[i].Body().None? <==> !f(requests[i]).confirmed)
  {
    if |requests| > 0 && !Resolves(requests[0], f) {
      AcceptLoopReplies(requests[1..], f);
      assert forall j | 1 <= j < |requests| :: requests[j] == requests[1..][j - 1];
    }
  }

  /** Requests after the one that ended the loop are never taken. */
  lemma {:induction false} LaterRequestsUnseen<T>(requests: seq<Request>, later: seq<Request>, f: Request -> Handled<T>)
    requires !AcceptLoop(requests, f).stop.Exhausted?
    ensures AcceptLoop(requests + later, f) == AcceptLoop(requests, f)
  {
    assert |requests| > 0;
    if !Resolves(requests[0], f) {
      assert (requests + later)[1..] == requests[1..] + later;
      LaterRequestsUnseen(requests[1..], later, f);
    }
  }

  function Arrival(r: Request): nat {
    r.at
  }

  /**
   * `process_request`: the accept loop raced against the timer. Only an
   * acceptance reaches the race; a loop that runs dry, is still waiting,
   * or died in a validator panic leaves the timer to fire, and the result
   * is the `Timeout` error ("No requests with required data. Timeout.").
   */
  function Race<T>(requests: seq<Request>, timeout: nat, tie: TieBreak, f: Request -> Handled<T>): (o: Outcome<T>)
    ensures !o.Panicked?
    ensures o.Ok? <==>
      exists k | 0 <= k < |requests| ::
        && HandledInTime(requests, Arrival, timeout, tie, k)
        && f(requests[k]).verdict.Accept?
        && forall j | 0 <= j < k :: !Resolves(requests[j], f)
    ensures o.Ok? ==>
      exists k | 0 <= k < |requests| ::
        && HandledInTime(requests, Arrival, timeout, tie, k)
        && f(requests[k]).verdict == Accept(o.value)
        && forall j | 0 <= j < k :: !Resolves(requests[j], f)
    ensures !o.Ok? ==> o.ErrorMessage() == Some(TimeoutMessage)
  {
    var handled := BeforeTimer(requests, Arrival, timeout, tie);
    var s := AcceptLoop(handled, f);
    RaceFacts(requests, timeout, tie, f, handled, s);
    if s.stop.Accepted? then Ok(s.stop.value) else Timeout
  }

  lemma RaceFacts<T>(requests: seq<Request>, timeout: nat, tie: TieBreak, f: Request -> Handled<T>,
                     handled: seq<Request>, s: Serve<T>)
    requires handled == BeforeTimer(requests, Arrival, timeout, tie)
    requires s == AcceptLoop(handled, f)
    ensures s.stop.Accepted? <==>
      exists k | 0 <= k < |requests| ::
        && HandledInTime(requests, Arrival, timeout, tie, k)
        && f(requests[k]).verdict.Accept?
        && forall j | 0 <= j < k :: !Resolves(requests[j], f)
    ensures s.stop.Accepted? ==>
      var k := s.inspected - 1;
      && 0 <= k < |requests|
      && HandledInTime(requests, Arrival, timeout, tie, k)
      && f(requests[k]).verdict == Accept(s.stop.value)
      && forall j | 0 <= j < k :: !Resolves(requests[j], f)
  {
    AcceptLoopStopsAtFirst(handled, f);
    BeforeTimerHandled(requests, Arrival, timeout, tie);
    assert forall j | 0 <= j < |handled| :: handled[j] == requests[j];
    if !s.stop.Accepted? {
      forall k | 0 <= k < |requests| && HandledInTime(requests, Arrival, timeout, tie, k)
                   && f(requests[k]).verdict.Accept?
        ensures exists j | 0 <= j < k :: Resolves(requests[j], f)
      {
        if s.stop.Exhausted? {
          assert Resolves(handled[k], f);
          assert false;
        } else {
          assert s.inspected - 1 != k;
          assert Resolves(requests[s.inspected - 1], f);
        }
      }
    }
  }

  /** Among the indices where a property holds, there is a least one. */
  lemma {:induction false} LeastAccepted<T>(requests: seq<Request>, f: Request -> Handled<T>, k: nat)
    requires k < |requests| && f(requests[k]).verdict.Accept?
    ensures exists k' | 0 <= k' <= k ::
      f(requests[k']).verdict.Accept? && forall j | 0 <= j < k' :: !f(requests[j]).verdict.Accept?
    decreases k
  {
    if j :| 0 <= j < k && f(requests[j]).verdict.Accept? {
      LeastAccepted(requests, f, j);
    }
  }

  /** With a validator that never panics, the race succeeds iff some request handled in time is accepted. */
  lemma RaceWithoutPanics<T>(requests: seq<Request>, timeout: nat, tie: TieBreak, f: Request -> Handled<T>)
    requires forall j | 0 <= j < |requests| :: !f(requests[j]).verdict.Panic?
    ensures Race(requests, timeout, tie, f).Ok? <==>
      exists k | 0 <= k < |requests| :: HandledInTime(requests, Arrival, timeout, tie, k) && f(requests[k]).verdict.Accept?
  {
    if k :| 0 <= k < |requests| && HandledInTime(requests, Arrival, timeout, tie, k) && f(requests[k]).verdict.Accept? {
      LeastAccepted(requests, f, k);
      var k' :| 0 <= k' <= k && f(requests[k']).verdict.Accept? && forall j | 0 <= j < k' :: !f(requests[j]).verdict.Accept?;
      assert HandledInTime(requests, Arrival, timeout, tie, k');
      assert forall j | 0 <= j < k' :: !Resolves(requests[j], f);
    }
  }

  /**
   * `AuthServer::get_code`: succeeds iff some request handled in time
   * carries `code` and the right first `state`, whatever its path; the
   * result is the first `code` of the first such request.
   */
  function GetCodeFlow(requests: seq<Request>, timeout: nat, tie: TieBreak, secret: string): (o: Outcome<string>)
    ensures !o.Panicked?
    ensures o.Ok? <==>
      exists k | 0 <= k < |requests| ::
        HandledInTime(requests, Arrival, timeout, tie, k) && GetCode(secret, requests[k]).verdict.Accept?
    ensures o.Ok? ==>
      exists k | 0 <= k < |requests| ::
        && HandledInTime(requests, Arrival, timeout, tie, k)
        && Lookup(requests[k].query, "state") == Some(secret)
        && Lookup(requests[k].query, "code") == Some(o.value)
        && GetCode(secret, requests[k]).verdict == Accept(o.value)
        && forall j | 0 <= j < k :: !GetCode(secret, requests[j]).verdict.Accept?
    ensures !o.Ok? ==> o.ErrorMessage() == Some(TimeoutMessage)
  {
    var f := r => GetCode(secret, r);
    assert forall r :: f(r) == GetCode(secret, r);
    RaceWithoutPanics(requests, timeout, tie, f);
    Race(requests, timeout, tie, f)
  }

  /**
   * `AuthServer::get_token_data`: a success is the token of a POST
   * handled in time whose first `state` is the secret, and every request
   * before it was ignored.
   */
  function GetTokenDataFlow(requests: seq<Request>, timeout: nat, tie: TieBreak, secret: string): (o: Outcome<TokenInfo>)
    ensures !o.Panicked?
    ensures o.Ok? <==>
      exists k | 0 <= k < |requests| ::
        && HandledInTime(requests, Arrival, timeout, tie, k)
        && GetTokenData(secret, requests[k]).verdict.Accept?
        && forall j | 0 <= j < k :: GetTokenData(secret, requests[j]).verdict.Ignore?
    ensures !o.Ok? ==> o.ErrorMessage() == Some(TimeoutMessage)
    ensures o.Ok? ==>
      exists k | 0 <= k < |requests| ::
        && HandledInTime(requests, Arrival, timeout, tie, k)
        && requests[k].httpMethod == Post
        && requests[k].body.Some?
        && Lookup(requests[k].body.value, "state") == Some(secret)
        && o.value.refreshToken.None? && o.value.scope.None?
        && GetTokenData(secret, requests[k]) == Handled(Accept(o.value), true)
        && forall j | 0 <= j < k :: GetTokenData(secret, requests[j]).verdict.Ignore?
  {
    var f := r => GetTokenData(secret, r);
    assert forall r :: f(r) == GetTokenData(secret, r);
    Race(requests, timeout, tie, f)
  }

  /**
   * As written, a form post lacking `expires_in` kills the accept loop, so
   * a valid callback that follows in time is never taken and the flow
   * times out.
   */
  lemma MalformedPostLosesLaterCallback(first: Request, second: Request, timeout: nat, tie: TieBreak, secret: string)
    requires first.httpMethod == Post && first.body.Some?
    requires HasName(first.body.value, "access_token") && !HasName(first.body.value, "expires_in")
    requires GetTokenData(secret, second).verdict.Accept?
    requires InTime(first.at, timeout, tie) && InTime(second.at, timeout, tie)
    ensures GetTokenDataFlow([first, second], timeout, tie, secret) == Timeout
  {
    var requests := [first, second];
    var f := r => GetTokenData(secret, r);
    assert GetTokenData(secret, first).verdict == Panic(MissingExpiresIn);
    assert Resolves(requests[0], f);
    var o := Race(requests, timeout, tie, f);
    assert GetTokenDataFlow(requests, timeout, tie, secret) == o;
  }

  /**
   * `get_token_data` with malformed callbacks ignored instead of
   * panicking; the page is sent exactly for accepted requests.
   */
  function TolerantGetTokenData(secret: string, req: Request): (h: Handled<TokenInfo>)
    ensures !h.verdict.Panic?
    ensures h.confirmed <==> h.verdict.Accept?
    ensures GetTokenData(secret, req).verdict.Accept? ==> h == GetTokenData(secret, req)
    ensures GetTokenData(secret, req).verdict.Ignore? ==> h == GetTokenData(secret, req)
    ensures GetTokenData(secret, req).verdict.Panic? ==> h == Handled(Ignore, false)
  {
    if req.httpMethod != Post then Handled(Ignore, false)
    else
      match req.body
      case None => Handled(Ignore, false)
      case Some(form) =>
        var v := TolerantTokenFromForm(form, secret, req.now);
        Handled(v, v.Accept?)
  }

  /** The corrected flow: it succeeds iff some request handled in time is accepted. */
  function TolerantGetTokenDataFlow(requests: seq<Request>, timeout: nat, tie: TieBreak, secret: string): (o: Outcome<TokenInfo>)
    ensures !o.Panicked?
    ensures o.Ok? <==>
      exists k | 0 <= k < |requests| ::
        HandledInTime(requests, Arrival, timeout, tie, k) && TolerantGetTokenData(secret, requests[k]).verdict.Accept?
    ensures o.Ok? ==>
      exists k | 0 <= k < |requests| ::
        && HandledInTime(requests, Arrival, timeout, tie, k)
        && TolerantGetTokenData(secret, requests[k]) == Handled(Accept(o.value), true)
        && forall j | 0 <= j < k :: !TolerantGetTokenData(secret, requests[j]).verdict.Accept?
    ensures !o.Ok? ==> o.ErrorMessage() == Some(TimeoutMessage)
  {
    var f := r => TolerantGetTokenData(secret, r);
    assert forall r :: f(r) == TolerantGetTokenData(secret, r);
    RaceWithoutPanics(requests, timeout, tie, f);
    Race(requests, timeout, tie, f)
  }

  /** With the tolerant validator the valid callback after the malformed one wins. */
  lemma TolerantLaterCallbackWins(first: Request, second: Request, timeout: nat, tie: TieBreak, secret: string)
    requires first.httpMethod == Post && first.body.Some?
    requires HasName(first.body.value, "access_token") && !HasName(first.body.value, "expires_in")
    requires GetTokenData(secret, second).verdict.Accept?
    requires InTime(first.at, timeout, tie) && InTime(second.at, timeout, tie)
    ensures TolerantGetTokenDataFlow([first, second], timeout, tie, secret) == Ok(GetTokenData(secret, second).verdict.value)
  {
    var requests := [first, second];
    var f := r => TolerantGetTokenData(secret, r);
    assert TolerantGetTokenData(secret, first).verdict == Ignore;
    assert HandledInTime(requests, Arrival, timeout, tie, 1);
    var o := Race(requests, timeout, tie, f);
    assert TolerantGetTokenDataFlow(requests, timeout, tie, secret) == o;
    assert o.Ok?;
    var k :| 0 <= k < |requests| && HandledInTime(requests, Arrival, timeout, tie, k) && f(requests[k]).verdict == Accept(o.value)
      && forall j | 0 <= j < k :: !Resolves(requests[j], f);
    assert k == 1;
  }
}
