# doken: callback capture and argument checks, modelled in Dafny

`doken` fetches an OAuth 2.0 / OpenID Connect token for a developer or a
script. For the interactive grants it opens the provider's authorization
page and waits for the provider's callback, which carries either an
authorization code (query string) or a token (form post). There are two
ways to capture that callback: a local HTTP listener (`AuthServer`), or
request interception inside an automated Chromium (`AuthBrowser`). Each
callback is checked against the flow's CSRF `state`. The first valid one
wins a race against a timeout. Before any of that, `Args` checks that the
chosen grant has the arguments it needs.

This project models three sequential cores of that behaviour as pure
functions over immutable data and proves their properties:

- `callback.dfy` (`Callback`): what both channels share. This is the
  first-occurrence lookup of decoded pairs, Rust's `u64` parsing of
  `expires_in`, the `get_code` check and the `get_token_data` form check.
  Every `expect`/`unwrap` is an explicit `Panic` verdict.
- `timer.dfy` (`Timer`): the timeout branch of `tokio::select!`. Events
  carry arrival times in milliseconds from the start of the timer. The
  channel handles the longest prefix of events that arrive in time. When an
  event and the timer are due at the same instant, the runtime decides;
  that choice is the explicit `TieBreak` parameter.
- `browser_channel.dfy` (`BrowserChannel`): routing by origin and path,
  the intercept loop as a fold that returns the actions sent (`Fulfill`
  200 OK / NOT OK, or `Continue`), the race outcome, and the two
  validators.
- `listener_channel.dfy` (`ListenerChannel`): the accept loop with no
  routing, the confirmation page sent only from inside a validator, the
  race outcome (a fixed `Timeout` error), and the two validators.
- `args.dfy` (`Args`): the `Grant` enum, the argument record with its clap
  defaults, the clap group conflict, and the grant-specific checks, which
  run in source order and stop at the first failure.
- `wrappers.dfy` (`Wrappers`): `Option`.

Behaviours of the code worth noting:

- The listener checks neither path nor origin.
- The listener sends its confirmation page only to requests it accepts. It
  also sends the page to a matching form post whose `expires_in` then fails
  to parse.
- There is no cancellation outcome. Closing the browser only ends the
  handler task (src/auth_browser.rs:78-86), so the race can end only in
  `Ok`, `Timeout` or a panic.
- A missing form field panics, as written. The corrected, tolerant
  variants are modelled next to the as-written ones; see Findings.

The two channels react differently when a validator panics.

- **Browser:** the intercept task dies and the race waits for the timer.
  Then `intercept_handle.await.unwrap()` panics, so the outcome is
  `Panicked`.
- **Listener:** the spawned accept task dies. Its result channel closes,
  which disables that `select!` branch. The timer then fires, so the
  outcome is `Timeout`, and requests that arrive later are never taken.

In src/lib/args.rs:145 the resource-owner-password grant reuses the client
credentials message, which names the `client-credentials` grant. The model
keeps that text.

## Model

| member | source | states |
|---|---|---|
| Callback.Lookup | src/auth_browser.rs:157-158 | returns the value of the first pair with the given name, and None exactly when no pair has that name |
| Callback.LookupSkipsOthers | src/auth_browser.rs:194-207 | pairs with other names placed before the list do not change which value a lookup finds |
| Callback.ParseU64 | src/auth_browser.rs:215-217 | accepts exactly an optional '+' followed by one or more ASCII digits whose value is below 2^64, and returns that value |
| Callback.ParseDecimalRoundTrip | src/auth_browser.rs:215-217 | parsing the decimal spelling of any u64, with or without '+', gives the number back |
| Callback.ParseRejects | src/auth_browser.rs:215-217 | the empty string, a bare '+' and anything starting with '-' are not numbers |
| Callback.CodeFromQuery | src/auth_browser.rs:157-179 | yields a code iff `code` is present and the first `state` equals the secret exactly, and the code is the first `code` value |
| Callback.CheckForm | src/auth_browser.rs:194-209 | `access_token`, then `expires_in`, then `state` must be present, each missing one panicking in that order; a present state is a match iff it equals the secret |
| Callback.FinishToken | src/auth_browser.rs:209-221 | accepts iff `expires_in` parses, giving no refresh token, no scope and `expires = now + expires_in`; otherwise panics with the bad-number reason |
| Callback.TokenFromForm | src/auth_browser.rs:188-226 | ignored iff all three fields are present and the state mismatches; accepted tokens carry the first access token and `now + expires_in`; panics iff a field is missing, or the state matches and the number does not parse |
| Callback.MismatchBeforeParse | src/auth_browser.rs:209-226 | a wrong state is ignored even when `expires_in` is not a number, because the state is compared first |
| Callback.FormPostRoundTrip | src/auth_browser.rs:191-221 | `access_token=a&expires_in=n&state=S` with matching S yields `TokenInfo{a, None, now+n, None}` for every u64 n |
| Callback.TolerantTokenFromForm | src/auth_browser.rs:194-207 | never panics, agrees with the as-written check whenever that check does not panic, and ignores the callback where it would panic |
| Timer.BeforeTimer | src/auth_browser.rs:137-145 | the events handled form a prefix of the stream, all of them in time, and the first event left out is late |
| Timer.BeforeTimerExact | src/lib/auth_server.rs:85-93 | on a stream in arrival order, an event is handled iff it arrives before the timer fires |
| Timer.BeforeTimerTieFree | src/lib/auth_server.rs:85-93 | when no event arrives exactly at the deadline, the handled prefix does not depend on the tie-break |
| BrowserChannel.RoutingIgnoresQuery | src/auth_browser.rs:95-97 | changing the query of the request or of the callback URL never changes whether a request is routed to the validator |
| BrowserChannel.IsCallback | src/auth_browser.rs:96-97 | a request is routed iff its scheme has a tuple origin and it matches the callback URL on scheme, host, effective port and path |
| BrowserChannel.DefaultPortIsImplicit | src/auth_browser.rs:96 | writing the scheme's default port explicitly does not change routing |
| BrowserChannel.OpaqueCallbackNeverMatches | src/auth_browser.rs:96 | when the callback URL has an opaque origin, no request is ever routed to the validator |
| BrowserChannel.ActionFor | src/auth_browser.rs:101-130 | a routed request is fulfilled with status 200, with the OK page iff the validator accepted it and the NOT OK page otherwise; any other request is continued; the action names the request's own id |
| BrowserChannel.Dispatch | src/auth_browser.rs:94-131 | the loop stops at a routed event the validator did not ignore, and that event's verdict is the stop; it runs to the end otherwise; one action per event it returned on |
| BrowserChannel.DispatchStopsAtFirstDecisive | src/auth_browser.rs:121-124 | the loop reaches the end iff no event is decisive, and every event before the stopping one was ignored or not routed |
| BrowserChannel.DispatchActions | src/auth_browser.rs:101-130 | each action is a 200 fulfilment with body OK iff the validator accepted, NOT OK otherwise, for a routed request, and a plain continue for any other request |
| BrowserChannel.ValidatorSeesOnlyCallbacks | src/auth_browser.rs:94-130 | two validators that agree on routed requests give identical runs, so the validator is never applied to other traffic |
| BrowserChannel.LaterEventsUnseen | src/auth_browser.rs:121-124 | after the loop has stopped, appending further events, such as a second identical callback, changes nothing |
| BrowserChannel.Race | src/auth_browser.rs:137-151 | `Timeout`, with the message "No requests with required data. Timeout.", iff no event handled in time is decisive; otherwise the first decisive event settles the race, `Ok` for an acceptance and a panic for a validator panic |
| BrowserChannel.RaceSettlesAtFirstDecisive | src/auth_browser.rs:121-124 | whichever event is the first decisive one handled in time, its verdict decides the race |
| BrowserChannel.TieMattersOnlyAtDeadline | src/auth_browser.rs:137-145 | when no event arrives exactly at the deadline, the outcome is the same under either tie-break |
| BrowserChannel.FirstDecisiveSettles | src/auth_browser.rs:137-145 | on an ordered stream, the first decisive event settles the race if it arrives before the deadline, and the race times out if it arrives after it |
| BrowserChannel.GetCode | src/auth_browser.rs:154-183 | never panics; accepts iff `code` is present and the first `state` is the secret, returning the first `code` |
| BrowserChannel.GetTokenData | src/auth_browser.rs:185-235 | ignores every method but exact "POST"; a POST without post data panics; otherwise it applies the form check with the handling time as `now` |
| BrowserChannel.GetCodeFlow | src/auth_browser.rs:154-183 | never panics; succeeds iff some routed request handled in time carries `code` and the right state; the value is the first `code` of the first such request, and otherwise the result is the timeout error |
| BrowserChannel.GetTokenDataFlow | src/auth_browser.rs:185-235 | succeeds iff some routed request handled in time is accepted and no earlier routed request was accepted or panicked; the token is from that first decisive POST, whose state is the secret; it times out, with the timeout message, iff no routed request in time is accepted or panics; a panic comes from the first routed POST in time that was not ignored |
| BrowserChannel.TolerantGetTokenData | src/auth_browser.rs:186-207 | never panics; agrees with the as-written validator wherever that validator does not panic, and ignores the request wherever it would panic |
| BrowserChannel.TolerantGetTokenDataFlow | src/auth_browser.rs:185-235 | never panics; succeeds iff some routed request handled in time is accepted; the token is the one of the first such request, and otherwise the result is the timeout error |
| BrowserChannel.MalformedPostPanicsFlow | src/auth_browser.rs:199-202 | a routed POST in time that lacks `expires_in` makes the whole flow panic, whatever sequence of events follows it |
| BrowserChannel.TolerantLaterCallbackWins | src/auth_browser.rs:194-207 | with the tolerant validator, a valid callback after such a malformed one wins the race |
| ListenerChannel.GetCode | src/lib/auth_server.rs:96-131 | never panics; sends the page exactly when it accepts; accepts iff `code` is present and the first `state` is the secret, returning the first `code` |
| ListenerChannel.GetCodeIgnoresPath | src/lib/auth_server.rs:102-114 | the request path and method never change the result: any URL with the right query is accepted |
| ListenerChannel.GetCodeAgreesWithBrowser | src/lib/auth_server.rs:101-128 | on the same query, the listener's code check gives the same verdict as the browser's |
| ListenerChannel.GetTokenData | src/lib/auth_server.rs:133-194 | ignores non-POST without a reply; an unreadable body panics; it sends the page iff all fields are present and the state matches, so a bad `expires_in` gets the page and then panics |
| ListenerChannel.GetTokenDataAgreesWithBrowser | src/lib/auth_server.rs:140-183 | on the same POST body, the listener's verdict is the browser's |
| ListenerChannel.AcceptLoop | src/lib/auth_server.rs:69-83 | requests are taken in order until one the validator does not ignore, whose verdict is the stop; one reply entry per request taken |
| ListenerChannel.AcceptLoopStopsAtFirst | src/lib/auth_server.rs:70-80 | the loop runs dry iff every request is ignored, and every request before the stopping one was ignored |
| ListenerChannel.AcceptLoopReplies | src/lib/auth_server.rs:69-83 | a request taken gets the confirmation page's HTML iff its validator sent it, and no body otherwise; ignored requests get nothing from the validator |
| ListenerChannel.LaterRequestsUnseen | src/lib/auth_server.rs:73-77 | after the loop has stopped, later requests are never taken |
| ListenerChannel.Race | src/lib/auth_server.rs:85-93 | never panics; `Ok(v)` iff a request handled in time is accepted with v and every earlier request was ignored; otherwise it is the error "No requests with required data. Timeout." |
| ListenerChannel.RaceWithoutPanics | src/lib/auth_server.rs:69-93 | with a validator that never panics, the race succeeds iff some request handled in time is accepted |
| ListenerChannel.GetCodeFlow | src/lib/auth_server.rs:96-131 | never panics; succeeds iff some request handled in time, with any path, carries `code` and the right state; the value is the first `code` of the first such request, and otherwise the result is the timeout error |
| ListenerChannel.GetTokenDataFlow | src/lib/auth_server.rs:133-194 | never panics; succeeds iff some request handled in time is accepted and every earlier one was ignored; the token is from that POST, whose state is the secret and which got the page; otherwise the result is the timeout error |
| ListenerChannel.MalformedPostLosesLaterCallback | src/lib/auth_server.rs:153-156 | a POST in time that lacks `expires_in` kills the loop, so a valid callback after it is lost and the flow times out |
| ListenerChannel.TolerantGetTokenData | src/lib/auth_server.rs:138-191 | never panics, sends the page exactly when it accepts, agrees with the as-written validator on acceptances and on ignored requests, and ignores without a reply where that validator would panic |
| ListenerChannel.TolerantGetTokenDataFlow | src/lib/auth_server.rs:133-194 | never panics; succeeds iff some request handled in time is accepted; the token is the one of the first such request, which got the page, and otherwise the result is the timeout error |
| ListenerChannel.TolerantLaterCallbackWins | src/lib/auth_server.rs:148-161 | with the tolerant validator, the valid callback after the malformed one is the result |
| Args.AssertUrlsForAuthorizationGrants | src/lib/args.rs:108-121 | passes iff at least one of token, authorization and discovery URL is given; otherwise it fails with MissingRequiredArgument and the source's message |
| Args.AssertGrantSpecificArguments | src/lib/args.rs:123-201 | passes iff the grant's requirements hold; the only ArgumentConflict is `--token-url` with the implicit grant |
| Args.Defaults | src/lib/args.rs:38-101 | with no arguments given: the PKCE grant, port 8081, scope "offline_access", an access token, and no URL, secret, username, password or audience |
| Args.GroupsConflict | src/lib/args.rs:27-37 | clap's group conflict holds iff a member of the "oauth2" group (token or authorization URL) and a member of the "oidc" group (discovery URL) are both given |
| Args.Validate | src/lib/args.rs:27-37 | a discovery URL combined with a token or authorization URL is clap's group conflict, raised before the grant checks; otherwise the result is exactly the grant checks' verdict, error kind and message included |
| Args.AuthorizationCodeNeedsAnyUrl | src/lib/args.rs:127-132 | for both authorization-code grants, the checks fail iff all three URLs are absent; the failure is MissingRequiredArgument; `token_url` alone passes |
| Args.ImplicitChecks | src/lib/args.rs:183-198 | for the implicit grant, `token_url` is an ArgumentConflict checked first; without it, the checks fail iff both the authorization and discovery URLs are absent |
| Args.PasswordGrantCheckOrder | src/lib/args.rs:133-164 | resource owner password: token or discovery URL, then secret or stdin, then username, then password or stdin; the first missing one sets the message |
| Args.ClientCredentialsCheckOrder | src/lib/args.rs:166-181 | client credentials: token or discovery URL first, then secret or stdin |
| Args.IrrelevantFieldsIgnored | src/lib/args.rs:123-201 | scope, audience, port, client id, force, debug and token type never change the verdict |
| Args.DefaultsNeedOneUrl | src/lib/args.rs:38-101 | the defaults (PKCE grant, port 8081, scope "offline_access", access token) ask for a URL; one token or discovery URL then passes; both together conflict |

## Left out

- Browser automation is not modelled: launching Chromium, the first-page polling loop, the handler task, page navigation, and closing and joining (src/auth_browser.rs:42-59, 69-93, 134-135, 147-148). These are foreign-library I/O and concurrency. Errors from CDP `execute` are only logged, so each action in the model is the command that was sent.
- A closed browser (src/auth_browser.rs:81) is only a TODO in the source, so there is no cancellation outcome.
- BrowserChannel.Race: events that arrive after the timer fires are treated as never handled. In the source, an event handled between the timer and `browser.close()` could still panic the final join.
- Binding the listener and `unblock` are not modelled (src/lib/auth_server.rs:30-38, 87), including the panic when the port is taken. A failure to write the page (the `unwrap`s at 112 and 164) is not modelled either. These are socket I/O.
- The `tokio::spawn`/`select!` scheduling is reduced to arrival times plus a `TieBreak` choice. Validators are taken to run at the instant their request arrives.
- URL parsing, `query_pairs` and form decoding are external crates. Inputs are decoded pair lists and parsed URLs. An unparseable URL (the `unwrap` at src/auth_browser.rs:95 and src/lib/auth_server.rs:102) cannot be represented.
- The method of a listener request is taken as `tiny_http` has already parsed it.
- `blob:` URLs are not modelled; the `url` crate derives their origin from the inner URL.
- `SystemTime::now()` is a per-request `now` in whole seconds. The panic when `now + expires_in` overflows `SystemTime` is not modelled.
- Argument parsing itself is not modelled: clap, environment variables, `.env`, and `parse_client_secret`/`parse_password` with their stdin prompts (src/lib/args.rs:203-244). `client_id` is required by its type.
- src/lib/oauth_client.rs is not part of this model. It is a wrapper over the `oauth2` crate, network token exchange, refresh and discovery.
- src/main.rs, src/retrievers/implicit_retriever.rs and src/lib/mod.rs are not part of this model. They hold process set-up, orchestration glue and module declarations.
- Logging is left out.

## Findings

| source | as written | input that shows it | evidently intended | confidence | as-written member | corrected member |
|---|---|---|---|---|---|---|
| src/lib/auth_server.rs:153-156 | a form post without `expires_in` panics inside the spawned accept task, which ends the loop | POST `access_token=a&state=S`, then a valid POST `access_token=a&expires_in=60&state=S`, both before the deadline: the result is `Timeout` | ignore the malformed callback and accept the valid one that follows | medium, not executed | ListenerChannel.MalformedPostLosesLaterCallback | ListenerChannel.TolerantLaterCallbackWins |
| src/auth_browser.rs:199-202 | the same panic kills the intercept task, and the join after the timer panics | the same two callbacks to the callback URL: the flow panics | ignore the malformed callback and accept the valid one that follows | medium, not executed | BrowserChannel.MalformedPostPanicsFlow | BrowserChannel.TolerantLaterCallbackWins |

The tolerant validators (`Callback.TolerantTokenFromForm`,
`BrowserChannel.TolerantGetTokenData`,
`ListenerChannel.TolerantGetTokenData`) and their flows sit next to the
as-written ones. The as-written versions stay the model of the code. The
tolerant versions show what the intended behaviour guarantees.
