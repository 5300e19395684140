/**
 * The browser channel (`AuthBrowser`): every request the controlled page
 * makes is paused and handed to one loop. A request whose URL has the
 * callback URL's origin and path is run through the validator and
 * fulfilled locally with a 200 page saying OK or NOT OK; every other
 * request is continued to the network untouched. The first request the
 * validator accepts ends the loop and is sent to the race.
 */
module BrowserChannel {
  import opened Wrappers
  import opened Callback
  import opened Timer

  const ContentOk: string := "<html><head></head><body><h1>OK</h1></body></html>"
  const ContentNotOk: string := "<html><head></head><body><h1>NOT OK</h1></body></html>"

  /**
   * A parsed URL as the `url` crate exposes it. `port` is the explicit
   * port, if any; `path` excludes the query, which is already decoded.
   */
  datatype Url = Url(scheme: string, host: string, port: Option<nat>, path: string, query: Pairs)

  /** `url::Origin`: a (scheme, host, port) tuple, or an opaque origin. */
  datatype Origin = Tuple(scheme: string, host: string, port: nat) | Opaque

  /** The schemes with a tuple origin, and their known default ports. */
  function DefaultPort(scheme: string): Option<nat> {
    if scheme == "http" || scheme == "ws" then Some(80)
    else if scheme == "https" || scheme == "wss" then Some(443)
    else if scheme == "ftp" then Some(21)
    else None
  }

  function OriginOf(u: Url): Origin {
    match DefaultPort(u.scheme)
    case Some(known) => Tuple(u.scheme, u.host, u.port.GetOr(known))
    case None => Opaque
  }

  /**
   * Equality of two `origin()` results: every call creates a fresh opaque
   * origin, so an opaque origin never equals another.
   */
  predicate SameOrigin(a: Origin, b: Origin) {
    a.Tuple? && b.Tuple? && a == b
  }

  /**
   * The routing test of the intercept loop: same origin and same path.
   * A request is routed to the validator iff its scheme has a tuple origin
   * and it agrees with the callback URL on scheme, host, effective port and
   * path.
   */
  function IsCallback(request: Url, callback: Url): (b: bool)
    ensures b <==>
      && DefaultPort(callback.scheme).Some?
      && request.scheme == callback.scheme
      && request.host == callback.host
      && request.port.GetOr(DefaultPort(callback.scheme).value) == callback.port.GetOr(DefaultPort(callback.scheme).value)
      && request.path == callback.path
  {
    SameOrigin(OriginOf(request), OriginOf(callback)) && request.path == callback.path
  }

  /** The query string plays no part in routing. */
  lemma RoutingIgnoresQuery(request: Url, callback: Url, query: Pairs, callbackQuery: Pairs)
    ensures IsCallback(request.(query := query), callback.(query := callbackQuery)) == IsCallback(request, callback)
  {
  }

  /** Spelling out the default port does not change routing. */
  lemma DefaultPortIsImplicit(request: Url, callback: Url)
    requires DefaultPort(request.scheme).Some?
    ensures IsCallback(request.(port := DefaultPort(request.scheme)), callback) == IsCallback(request.(port := None), callback)
  {
  }

  /** With a callback URL whose origin is opaque no request is ever routed to the validator. */
  lemma OpaqueCallbackNeverMatches(request: Url, callback: Url)
    requires DefaultPort(callback.scheme).None?
    ensures !IsCallback(request, callback)
  {
  }

  /** One paused request. `at`: milliseconds since the timer started; `now`: wall clock when handled. */
  datatype Event = Event(
    requestId: string,
    url: Url,
    httpMethod: string,
    postData: Option<Pairs>,
    at: nat,
    now: Instant)

  /** What the loop sends back for a paused request. */
  datatype Action = Fulfill(requestId: string, status: nat, body: string) | Continue(requestId: string)

  /** The loop's record: actions sent, why it stopped, and how many events it took. */
  datatype Run<T> = Run(actions: seq<Action>, stop: Stop<T>, inspected: nat)

  /** An event that ends the loop: routed to the validator, which did not ignore it. */
  predicate Decisive<T>(callback: Url, e: Event, f: Event -> Verdict<T>) {
    IsCallback(e.url, callback) && !f(e).Ignore?
  }

  /**
   * The one action the loop sends for an event the validator returned on:
   * a callback is fulfilled with status 200 and the success page iff the
   * validator accepted it; any other request is let through.
   */
  function ActionFor<T>(callback: Url, e: Event, f: Event -> Verdict<T>): (a: Action)
    ensures a.requestId == e.requestId
    ensures a.Fulfill? <==> IsCallback(e.url, callback)
    ensures a.Fulfill? ==> a.status == 200 && (a.body == ContentOk <==> f(e).Accept?)
    ensures a.Fulfill? && !f(e).Accept? ==> a.body == ContentNotOk
  {
    if IsCallback(e.url, callback) then
      Fulfill(e.requestId, 200, if f(e).Accept? then ContentOk else ContentNotOk)
    else
      Continue(e.requestId)
  }

  /**
   * The intercept loop over a finite stream of paused requests.
   * A validator panic kills the loop before anything is sent for that
   * request.
   */
  function Dispatch<T>(callback: Url, events: seq<Event>, f: Event -> Verdict<T>): (r: Run<T>)
    ensures r.inspected <= |events|
    ensures r.stop.Exhausted? ==> r.inspected == |events|
    ensures !r.stop.Exhausted? ==>
      && 0 < r.inspected
      && Decisive(callback, events[r.inspected - 1], f)
      && r.stop == StopFor(f(events[r.inspected - 1]))
    ensures |r.actions| == if r.stop.Crashed? then r.inspected - 1 else r.inspected
    decreases |events|
  {
    if |events| == 0 then Run([], Exhausted, 0)
    else
      var e := events[0];
      if Decisive(callback, e, f) then
        match f(e)
        case Accept(v) => Run([ActionFor(callback, e, f)], Accepted(v), 1)
        case Panic(p) => Run([], Crashed(p), 1)
      else
        var rest := Dispatch(callback, events[1..], f);
        Run([ActionFor(callback, e, f)] + rest.actions, rest.stop, rest.inspected + 1)
  }

  /**
   * First decisive event wins: the loop stops at the first event that is
   * routed to the validator and not ignored, and runs to the end of the
   * stream iff there is none.
   */
  lemma {:induction false} DispatchStopsAtFirstDecisive<T>(callback: Url, events: seq<Event>, f: Event -> Verdict<T>)
    ensures var r := Dispatch(callback, events, f);
      && (r.stop.Exhausted? <==> forall j | 0 <= j < |events| :: !Decisive(callback, events[j], f))
      && forall j | 0 <= j < r.inspected - 1 :: !Decisive(callback, events[j], f)
  {
    if |events| > 0 && !Decisive(callback, events[0], f) {
      DispatchStopsAtFirstDecisive(callback, events[1..], f);
      assert forall j | 1 <= j < |events| :: events[j] == events[1..][j - 1];
    }
  }

  /**
   * One action per event the validator returned on, in order: a 200
   * fulfilment with body OK iff the validator accepted it, NOT OK
   * otherwise, for callback requests; a plain continue for all others.
   */
  lemma {:induction false} DispatchActions<T>(callback: Url, events: seq<Event>, f: Event -> Verdict<T>)
    ensures var r := Dispatch(callback, events, f);
      forall i | 0 <= i < |r.actions| :: r.actions[i] == ActionFor(callback, events[i], f)
  {
    if |events| > 0 && !Decisive(callback, events[0], f) {
      DispatchActions(callback, events[1..], f);
      assert forall j | 1 <= j < |events| :: events[j] == events[1..][j - 1];
    }
  }

  /**
   * The validator is only ever applied to requests on the callback path:
   * two validators that agree there give the same run.
   */
  lemma {:induction false} ValidatorSeesOnlyCallbacks<T>(callback: Url, events: seq<Event>, f: Event -> Verdict<T>, g: Event -> Verdict<T>)
    requires forall i | 0 <= i < |events| :: IsCallback(events[i].url, callback) ==> f(events[i]) == g(events[i])
    ensures Dispatch(callback, events, f) == Dispatch(callback, events, g)
  {
    if |events| > 0 {
      var e := events[0];
      assert forall i | 0 <= i < |events| - 1 :: events[1..][i] == events[i + 1];
      ValidatorSeesOnlyCallbacks(callback, events[1..], f, g);
      if IsCallback(e.url, callback) {
        assert f(e) == g(e);
      }
      assert ActionFor(callback, e, f) == ActionFor(callback, e, g);
    }
  }

  /**
   * Once an event has ended the loop, nothing that arrives later is
   * inspected: a second matching callback has no effect.
   */
  lemma {:induction false} LaterEventsUnseen<T>(callback: Url, events: seq<Event>, later: seq<Event>, f: Event -> Verdict<T>)
    requires !Dispatch(callback, events, f).stop.Exhausted?
    ensures Dispatch(callback, events + later, f) == Dispatch(callback, events, f)
  {
    assert |events| > 0;
    if !Decisive(callback, events[0], f) {
      assert (events + later)[1..] == events[1..] + later;
      LaterEventsUnseen(callback, events[1..], later, f);
    }
  }

  /** The outcome for the verdict on the event that ended the loop. */
  function Settle<T>(v: Verdict<T>): (o: Outcome<T>)
    requires !v.Ignore?
    ensures v.Accept? ==> o == Ok(v.value)
    ensures v.Panic? ==> o == Panicked(v.reason)
  {
    match v
    case Accept(x) => Ok(x)
    case Panic(p) => Panicked(p)
  }

  function Arrival(e: Event): nat {
    e.at
  }

  /**
   * `process_request`: the intercept loop raced against the timer.
   * An acceptance in time resolves to `Ok`; a loop that ends or is still
   * waiting when the timer fires gives `Timeout`. A validator panic kills
   * the intercept task, so the race runs to the timer and the final join
   * of that task panics.
   */
  function Race<T>(callback: Url, events: seq<Event>, timeout: nat, tie: TieBreak, f: Event -> Verdict<T>): (o: Outcome<T>)
    ensures o.Timeout? <==>
      forall k | 0 <= k < |events| && HandledInTime(events, Arrival, timeout, tie, k) :: !Decisive(callback, events[k], f)
    ensures !o.Timeout? ==>
      exists k | 0 <= k < |events| ::
        && HandledInTime(events, Arrival, timeout, tie, k)
        && Decisive(callback, events[k], f)
        && (forall j | 0 <= j < k :: !Decisive(callback, events[j], f))
        && o == Settle(f(events[k]))
    ensures o.Timeout? ==> o.ErrorMessage() == Some(TimeoutMessage)
  {
    var handled := BeforeTimer(events, Arrival, timeout, tie);
    var run := Dispatch(callback, handled, f);
    RaceFacts(callback, events, timeout, tie, f, handled, run);
    match run.stop
    case Accepted(v) => Ok(v)
    case Crashed(p) => Panicked(p)
    case Exhausted => Timeout
  }

  lemma RaceFacts<T>(callback: Url, events: seq<Event>, timeout: nat, tie: TieBreak, f: Event -> Verdict<T>,
                     handled: seq<Event>, run: Run<T>)
    requires handled == BeforeTimer(events, Arrival, timeout, tie)
    requires run == Dispatch(callback, handled, f)
    ensures forall k | 0 <= k < |events| :: HandledInTime(events, Arrival, timeout, tie, k) <==> k < |handled|
    ensures run.stop.Exhausted? <==>
      forall k | 0 <= k < |events| && HandledInTime(events, Arrival, timeout, tie, k) :: !Decisive(callback, events[k], f)
    ensures !run.stop.Exhausted? ==>
      var k := run.inspected - 1;
      && 0 <= k < |events|
      && HandledInTime(events, Arrival, timeout, tie, k)
      && Decisive(callback, events[k], f)
      && (forall j | 0 <= j < k :: !Decisive(callback, events[j], f))
      && run.stop == StopFor(f(events[k]))
    ensures forall k | 0 <= k < |events| && HandledInTime(events, Arrival, timeout, tie, k) && Decisive(callback, events[k], f)
                       && (forall j | 0 <= j < k :: !Decisive(callback, events[j], f)) ::
      !run.stop.Exhausted? && k == run.inspected - 1
  {
    DispatchStopsAtFirstDecisive(callback, handled, f);
    BeforeTimerHandled(events, Arrival, timeout, tie);
    assert forall j | 0 <= j < |handled| :: handled[j] == events[j];
    if run.stop.Exhausted? {
      forall k | 0 <= k < |events| && HandledInTime(events, Arrival, timeout, tie, k)
        ensures !Decisive(callback, events[k], f)
      {
        assert events[k] == handled[k];
      }
    } else {
      var k := run.inspected - 1;
      assert events[k] == handled[k];
      assert HandledInTime(events, Arrival, timeout, tie, k);
    }
  }

  /** Whichever event is the first decisive one handled in time settles the race. */
  lemma RaceSettlesAtFirstDecisive<T>(callback: Url, events: seq<Event>, timeout: nat, tie: TieBreak, f: Event -> Verdict<T>)
    ensures forall k | 0 <= k < |events| && HandledInTime(events, Arrival, timeout, tie, k) && Decisive(callback, events[k], f)
                       && (forall j | 0 <= j < k :: !Decisive(callback, events[j], f)) ::
      Race(callback, events, timeout, tie, f) == Settle(f(events[k]))
  {
    var handled := BeforeTimer(events, Arrival, timeout, tie);
    var run := Dispatch(callback, handled, f);
    RaceFacts(callback, events, timeout, tie, f, handled, run);
  }

  /**
   * Away from the deadline the runtime's tie-break does not matter: if no
   * event arrives exactly when the timer fires, both orders agree.
   */
  lemma TieMattersOnlyAtDeadline<T>(callback: Url, events: seq<Event>, timeout: nat, f: Event -> Verdict<T>)
    requires forall i | 0 <= i < |events| :: events[i].at != timeout
    ensures Race(callback, events, timeout, TimerFirst, f) == Race(callback, events, timeout, ChannelFirst, f)
  {
    BeforeTimerTieFree(events, Arrival, timeout);
  }

  /**
   * On a stream in arrival order, the first decisive event settles the
   * race if it arrives before the deadline, and the race times out if it
   * arrives after it.
   */
  lemma FirstDecisiveSettles<T>(callback: Url, events: seq<Event>, timeout: nat, tie: TieBreak,
                                f: Event -> Verdict<T>, k: nat)
    requires InArrivalOrder(events, Arrival)
    requires k < |events| && Decisive(callback, events[k], f)
    requires forall j | 0 <= j < k :: !Decisive(callback, events[j], f)
    ensures events[k].at < timeout ==> Race(callback, events, timeout, tie, f) == Settle(f(events[k]))
    ensures events[k].at > timeout ==> Race(callback, events, timeout, tie, f) == Timeout
  {
    var o := Race(callback, events, timeout, tie, f);
    if events[k].at < timeout {
      forall j | 0 <= j <= k ensures InTime(Arrival(events[j]), timeout, tie) {
        assert Arrival(events[j]) <= Arrival(events[k]);
      }
      assert HandledInTime(events, Arrival, timeout, tie, k);
      assert !o.Timeout?;
      var k' :| 0 <= k' < |events| && HandledInTime(events, Arrival, timeout, tie, k') && Decisive(callback, events[k'], f)
        && (forall j | 0 <= j < k' :: !Decisive(callback, events[j], f)) && o == Settle(f(events[k']));
      assert k' == k;
    } else if events[k].at > timeout {
      forall k' | 0 <= k' < |events| && HandledInTime(events, Arrival, timeout, tie, k')
        ensures !Decisive(callback, events[k'], f)
      {
        if k' >= k {
          assert false;
        }
      }
    }
  }

  // ---------------------------------------------------------------------
  // The two validators and the flows built on them
  // ---------------------------------------------------------------------

  /** `get_code`'s closure: the first `state` must equal the secret; the method is not looked at. */
  function GetCode(secret: string, e: Event): (v: Verdict<string>)
    ensures !v.Panic?
    ensures v.Accept? <==> HasName(e.url.query, "code") && Lookup(e.url.query, "state") == Some(secret)
    ensures v.Accept? ==> Lookup(e.url.query, "code") == Some(v.value)
  {
    match CodeFromQuery(e.url.query, secret)
    case Some(code) => Accept(code)
    case None => Ignore
  }

  /**
   * `get_token_data`'s closure: only the exact method "POST" is looked at;
   * its post data must be present, and the form check follows.
   */
  function GetTokenData(secret: string, e: Event): (v: Verdict<TokenInfo>)
    ensures e.httpMethod != "POST" ==> v.Ignore?
    ensures e.httpMethod == "POST" && e.postData.None? ==> v == Panic(MissingPostData)
    ensures e.httpMethod == "POST" && e.postData.Some? ==> v == TokenFromForm(e.postData.value, secret, e.now)
  {
    if e.httpMethod != "POST" then Ignore
    else
      match e.postData
      case None => Panic(MissingPostData)
      case Some(form) => TokenFromForm(form, secret, e.now)
  }

  /**
   * `AuthBrowser::get_code`: never panics; succeeds iff some callback
   * request handled in time carries `code` and the right first `state`,
   * and then yields the first `code` of the first such request.
   */
  function GetCodeFlow(callback: Url, events: seq<Event>, timeout: nat, tie: TieBreak, secret: string): (o: Outcome<string>)
    ensures !o.Panicked?
    ensures o.Ok? <==>
      exists k | 0 <= k < |events| ::
        HandledInTime(events, Arrival, timeout, tie, k) && IsCallback(events[k].url, callback) && GetCode(secret, events[k]).Accept?
    ensures o.Ok? ==>
      exists k | 0 <= k < |events| ::
        && HandledInTime(events, Arrival, timeout, tie, k)
        && IsCallback(events[k].url, callback)
        && Lookup(events[k].url.query, "state") == Some(secret)
        && Lookup(events[k].url.query, "code") == Some(o.value)
        && GetCode(secret, events[k]) == Accept(o.value)
        && forall j | 0 <= j < k :: !(IsCallback(events[j].url, callback) && GetCode(secret, events[j]).Accept?)
    ensures !o.Ok? ==> o.ErrorMessage() == Some(TimeoutMessage)
  {
    var f := e => GetCode(secret, e);
    var o := Race(callback, events, timeout, tie, f);
    assert forall e :: f(e) == GetCode(secret, e);
    o
  }

  /**
   * `AuthBrowser::get_token_data`: a success is the token of a POST
   * callback handled in time whose first `state` is the secret; a panic
   * comes from a POST callback handled in time.
   */
  function GetTokenDataFlow(callback: Url, events: seq<Event>, timeout: nat, tie: TieBreak, secret: string): (o: Outcome<TokenInfo>)
    ensures o.Ok? <==>
      exists k | 0 <= k < |events| ::
        && HandledInTime(events, Arrival, timeout, tie, k)
        && IsCallback(events[k].url, callback)
        && GetTokenData(secret, events[k]).Accept?
        && forall j | 0 <= j < k :: !(IsCallback(events[j].url, callback) && !GetTokenData(secret, events[j]).Ignore?)
    ensures o.Ok? ==>
      exists k | 0 <= k < |events| ::
        && HandledInTime(events, Arrival, timeout, tie, k)
        && IsCallback(events[k].url, callback)
        && events[k].httpMethod == "POST"
        && events[k].postData.Some?
        && Lookup(events[k].postData.value, "state") == Some(secret)
        && o.value.refreshToken.None? && o.value.scope.None?
        && GetTokenData(secret, events[k]) == Accept(o.value)
        && forall j | 0 <= j < k :: !(IsCallback(events[j].url, callback) && !GetTokenData(secret, events[j]).Ignore?)
    ensures o.Timeout? <==>
      forall k | 0 <= k < |events| && HandledInTime(events, Arrival, timeout, tie, k) ::
        !(IsCallback(events[k].url, callback) && !GetTokenData(secret, events[k]).Ignore?)
    ensures o.Timeout? ==> o.ErrorMessage() == Some(TimeoutMessage)
    ensures o.Panicked? ==>
      exists k | 0 <= k < |events| ::
        && HandledInTime(events, Arrival, timeout, tie, k)
        && IsCallback(events[k].url, callback)
        && events[k].httpMethod == "POST"
        && GetTokenData(secret, events[k]) == Panic(o.reason)
        && forall j | 0 <= j < k :: !(IsCallback(events[j].url, callback) && !GetTokenData(secret, events[j]).Ignore?)
  {
    var f := e => GetTokenData(secret, e);
    assert forall e :: f(e) == GetTokenData(secret, e);
    RaceSettlesAtFirstDecisive(callback, events, timeout, tie, f);
    Race(callback, events, timeout, tie, f)
  }

  /**
   * `get_token_data` with malformed callbacks ignored instead of panicking.
   */
  function TolerantGetTokenData(secret: string, e: Event): (v: Verdict<TokenInfo>)
    ensures !v.Panic?
    ensures !GetTokenData(secret, e).Panic? ==> v == GetTokenData(secret, e)
    ensures GetTokenData(secret, e).Panic? ==> v.Ignore?
  {
    if e.httpMethod != "POST" then Ignore
    else
      match e.postData
      case None => Ignore
      case Some(form) => TolerantTokenFromForm(form, secret, e.now)
  }

  /**
   * The corrected flow: it never panics, and it succeeds iff some callback
   * handled in time is accepted, even when malformed callbacks come first.
   */
  function TolerantGetTokenDataFlow(callback: Url, events: seq<Event>, timeout: nat, tie: TieBreak, secret: string): (o: Outcome<TokenInfo>)
    ensures !o.Panicked?
    ensures o.Ok? <==>
      exists k | 0 <= k < |events| ::
        HandledInTime(events, Arrival, timeout, tie, k) && IsCallback(events[k].url, callback) && TolerantGetTokenData(secret, events[k]).Accept?
    ensures o.Ok? ==>
      exists k | 0 <= k < |events| ::
        && HandledInTime(events, Arrival, timeout, tie, k)
        && IsCallback(events[k].url, callback)
        && TolerantGetTokenData(secret, events[k]) == Accept(o.value)
        && forall j | 0 <= j < k :: !(IsCallback(events[j].url, callback) && TolerantGetTokenData(secret, events[j]).Accept?)
    ensures !o.Ok? ==> o.ErrorMessage() == Some(TimeoutMessage)
  {
    var f := e => TolerantGetTokenData(secret, e);
    assert forall e :: f(e) == TolerantGetTokenData(secret, e);
    Race(callback, events, timeout, tie, f)
  }

  /**
   * As written, a form post to the callback path that lacks `expires_in`
   * ends the flow in a panic even when a valid callback follows in time.
   */
  lemma MalformedPostPanicsFlow(callback: Url, first: Event, rest: seq<Event>, timeout: nat, tie: TieBreak, secret: string)
    requires IsCallback(first.url, callback) && first.httpMethod == "POST" && first.postData.Some?
    requires HasName(first.postData.value, "access_token") && !HasName(first.postData.value, "expires_in")
    requires InTime(first.at, timeout, tie)
    ensures GetTokenDataFlow(callback, [first] + rest, timeout, tie, secret) == Panicked(MissingExpiresIn)
  {
    var events := [first] + rest;
    var o := GetTokenDataFlow(callback, events, timeout, tie, secret);
    assert HandledInTime(events, Arrival, timeout, tie, 0);
    assert GetTokenData(secret, first) == Panic(MissingExpiresIn);
    var f := e => GetTokenData(secret, e);
    assert Decisive(callback, events[0], f);
    assert o == Race(callback, events, timeout, tie, f);
  }

  /** With the tolerant validator the valid callback after the malformed one wins. */
  lemma TolerantLaterCallbackWins(callback: Url, first: Event, second: Event, timeout: nat, tie: TieBreak, secret: string)
    requires IsCallback(first.url, callback) && first.httpMethod == "POST" && first.postData.Some?
    requires HasName(first.postData.value, "access_token") && !HasName(first.postData.value, "expires_in")
    requires IsCallback(second.url, callback) && GetTokenData(secret, second).Accept?
    requires InTime(first.at, timeout, tie) && InTime(second.at, timeout, tie)
    ensures TolerantGetTokenDataFlow(callback, [first, second], timeout, tie, secret) == Ok(GetTokenData(secret, second).value)
  {
    var events := [first, second];
    var f := e => TolerantGetTokenData(secret, e);
    assert TolerantGetTokenData(secret, first) == Ignore;
    assert !Decisive(callback, events[0], f);
    assert HandledInTime(events, Arrival, timeout, tie, 1);
    assert Decisive(callback, events[1], f);
    var o := Race(callback, events, timeout, tie, f);
    assert !o.Timeout?;
    assert TolerantGetTokenDataFlow(callback, events, timeout, tie, secret) == o;
  }
}
