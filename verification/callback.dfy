/**
 * The parts of callback handling that the browser channel and the local
 * listener share: looking up decoded query or form pairs, parsing
 * `expires_in` as a `u64`, the CSRF check, and the two captured shapes
 * (an authorization code, or a token delivered by form post).
 *
 * Decoding of URLs and `application/x-www-form-urlencoded` bodies is taken
 * as already done: a query string or body is a sequence of decoded
 * (name, value) pairs, in the order they occur.
 */
module Callback {
  import opened Wrappers

  type Pairs = seq<(string, string)>

  /** Seconds since the epoch, standing in for `SystemTime`. */
  type Instant = nat

  /** The flow's result. `expires` is an absolute instant. */
  datatype TokenInfo = TokenInfo(
    accessToken: string,
    refreshToken: Option<string>,
    expires: Option<Instant>,
    scope: Option<string>)

  /** Why a validator panicked: one constructor per `expect`/`unwrap`. */
  datatype PanicReason =
    | MissingAccessToken   // "Cannot find access_token in the HTTP Post request."
    | MissingExpiresIn     // "Cannot find expires_in in the HTTP Post request."
    | MissingState         // "Cannot find state in the HTTP Post request."
    | BadExpiresIn         // "expires_in is an incorrect number"
    | MissingPostData      // browser: POST without post data
    | UnreadableBody       // listener: body could not be read as a UTF-8 string

  /** What a validator closure does with one request: `Some` is Accept, `None` is Ignore. */
  datatype Verdict<T> = Accept(value: T) | Ignore | Panic(reason: PanicReason)

  /** Why a dispatch loop stopped. */
  datatype Stop<T> = Accepted(value: T) | Crashed(reason: PanicReason) | Exhausted

  /** The text of the `Timeout` error in both channels. */
  const TimeoutMessage: string := "No requests with required data. Timeout."

  /** The value a whole race returns to its caller. */
  datatype Outcome<T> = Ok(value: T) | Timeout | Panicked(reason: PanicReason) {

    /** The message of the error value returned, if any; a panic returns no value. */
    function ErrorMessage(): Option<string> {
      match this
      case Timeout => Some(TimeoutMessage)
      case _ => None
    }
  }

  /** The stop a loop records for a validator verdict that ends it. */
  function StopFor<T>(v: Verdict<T>): (s: Stop<T>)
    requires !v.Ignore?
    ensures v.Accept? ==> s == Accepted(v.value)
    ensures v.Panic? ==> s == Crashed(v.reason)
  {
    match v
    case Accept(x) => Accepted(x)
    case Panic(p) => Crashed(p)
  }

  /** True iff some pair carries the given name. */
  predicate HasName(pairs: Pairs, name: string) {
    exists i | 0 <= i < |pairs| :: pairs[i].0 == name
  }

  /**
   * The value of the FIRST pair with the given name, as
   * `query_pairs().find(|qp| qp.0 == name)` returns it.
   */
  function Lookup(pairs: Pairs, name: string): (r: Option<string>)
    ensures r.None? <==> !HasName(pairs, name)
    ensures r.Some? ==>
      exists i | 0 <= i < |pairs| ::
        pairs[i] == (name, r.value) && forall j | 0 <= j < i :: pairs[j].0 != name
  {
    if |pairs| == 0 then None
    else if pairs[0].0 == name then Some(pairs[0].1)
    else
      var r := Lookup(pairs[1..], name);
      assert HasName(pairs, name) <==> HasName(pairs[1..], name) by {
        if HasName(pairs, name) {
          var i :| 0 <= i < |pairs| && pairs[i].0 == name;
          assert pairs[1..][i - 1].0 == name;
        }
        if HasName(pairs[1..], name) {
          var i :| 0 <= i < |pairs[1..]| && pairs[1..][i].0 == name;
          assert pairs[i + 1].0 == name;
        }
      }
      if r.Some? then
        var i :| 0 <= i < |pairs[1..]| &&
          pairs[1..][i] == (name, r.value) && forall j | 0 <= j < i :: pairs[1..][j].0 != name;
        assert pairs[i + 1] == (name, r.value);
        assert forall j | 0 <= j < i + 1 :: pairs[j].0 != name by {
          forall j | 0 <= j < i + 1 ensures pairs[j].0 != name {
            if j > 0 { assert pairs[j] == pairs[1..][j - 1]; }
          }
        }
        r
      else r
  }

  /** Pairs before the first pair with the given name do not change a lookup. */
  lemma {:induction false} LookupSkipsOthers(prefix: Pairs, rest: Pairs, name: string)
    requires forall i | 0 <= i < |prefix| :: prefix[i].0 != name
    ensures Lookup(prefix + rest, name) == Lookup(rest, name)
  {
    if |prefix| > 0 {
      assert (prefix + rest)[1..] == prefix[1..] + rest;
      LookupSkipsOthers(prefix[1..], rest, name);
    } else {
      assert prefix + rest == rest;
    }
  }

  // ---------------------------------------------------------------------
  // `str::parse::<u64>`
  // ---------------------------------------------------------------------

  const U64Limit: nat := 0x1_0000_0000_0000_0000

  predicate IsDigit(c: char) {
    '0' <= c <= '9'
  }

  predicate AllDigits(s: string) {
    forall i | 0 <= i < |s| :: IsDigit(s[i])
  }

  /** The number a string of decimal digits denotes, most significant first. */
  function DigitsValue(s: string): nat
    requires AllDigits(s)
  {
    if |s| == 0 then 0
    else DigitsValue(s[..|s| - 1]) * 10 + (s[|s| - 1] as int - '0' as int)
  }

  /** The digits after at most one leading '+' sign. */
  function Unsigned(s: string): string {
    if |s| > 0 && s[0] == '+' then s[1..] else s
  }

  /**
   * Rust's `u64::from_str`: an optional single '+', then one or more ASCII
   * digits (leading zeros allowed), with a value below 2^64. No whitespace,
   * no '-', not empty.
   */
  function ParseU64(s: string): (r: Option<nat>)
    ensures r.Some? ==> r.value < U64Limit
    ensures r.Some? <==>
      (var d := Unsigned(s); |d| > 0 && AllDigits(d) && DigitsValue(d) < U64Limit)
    ensures r.Some? ==> r.value == DigitsValue(Unsigned(s))
  {
    var d := Unsigned(s);
    if |d| == 0 || !AllDigits(d) then None
    else
      var n := DigitsValue(d);
      if n < U64Limit then Some(n) else None
  }

  /** The shortest decimal spelling of n. */
  function DecimalString(n: nat): (s: string)
    ensures |s| > 0 && AllDigits(s)
    decreases n
  {
    var digit := ['0' + (n % 10) as char];
    if n < 10 then digit else DecimalString(n / 10) + digit
  }

  lemma {:induction false} DecimalStringValue(n: nat)
    ensures DigitsValue(DecimalString(n)) == n
    decreases n
  {
    var s := DecimalString(n);
    if n >= 10 {
      DecimalStringValue(n / 10);
      assert s[..|s| - 1] == DecimalString(n / 10);
    }
  }

  /** Parsing the decimal spelling of any u64 gives it back. */
  lemma ParseDecimalRoundTrip(n: nat)
    requires n < U64Limit
    ensures ParseU64(DecimalString(n)) == Some(n)
    ensures ParseU64("+" + DecimalString(n)) == Some(n)
  {
    DecimalStringValue(n);
    assert ("+" + DecimalString(n))[1..] == DecimalString(n);
  }

  /** Spellings the parser refuses: empty, a bare sign, a minus sign. */
  lemma ParseRejects(s: string)
    ensures ParseU64("") == None
    ensures ParseU64("+") == None
    ensures ParseU64("-" + s) == None
  {
    assert !IsDigit(("-" + s)[0]);
  }

  // ---------------------------------------------------------------------
  // Validator cores
  // ---------------------------------------------------------------------

  /**
   * The `get_code` check: the first `state` and the first `code` must both
   * be present, and that `state` must equal the CSRF secret exactly; the
   * result is the first `code`.
   */
  function CodeFromQuery(query: Pairs, secret: string): (r: Option<string>)
    ensures r.Some? <==>
      HasName(query, "code") && HasName(query, "state") && Lookup(query, "state") == Some(secret)
    ensures r.Some? ==> Lookup(query, "code") == r
  {
    match (Lookup(query, "state"), Lookup(query, "code"))
    case (Some(state), Some(code)) => if state == secret then Some(code) else None
    case _ => None
  }

  /** How far the form-post check gets before the number is parsed. */
  datatype FormCheck =
    | Missing(reason: PanicReason)
    | Mismatch
    | Matched(accessToken: string, expiresIn: string)

  /**
   * Finds `access_token`, then `expires_in`, then `state` (each must be
   * present, in that order of checking), then compares `state` with the
   * CSRF secret.
   */
  function CheckForm(form: Pairs, secret: string): (c: FormCheck)
    ensures c == Missing(MissingAccessToken) <==> !HasName(form, "access_token")
    ensures c == Missing(MissingExpiresIn) <==>
      HasName(form, "access_token") && !HasName(form, "expires_in")
    ensures c == Missing(MissingState) <==>
      HasName(form, "access_token") && HasName(form, "expires_in") && !HasName(form, "state")
    ensures c.Missing? ==> c.reason in {MissingAccessToken, MissingExpiresIn, MissingState}
    ensures c.Mismatch? <==>
      HasName(form, "access_token") && HasName(form, "expires_in") &&
      HasName(form, "state") && Lookup(form, "state") != Some(secret)
    ensures c.Matched? <==>
      HasName(form, "access_token") && HasName(form, "expires_in") && Lookup(form, "state") == Some(secret)
    ensures c.Matched? ==>
      Some(c.accessToken) == Lookup(form, "access_token") && Some(c.expiresIn) == Lookup(form, "expires_in")
  {
    match Lookup(form, "access_token")
    case None => Missing(MissingAccessToken)
    case Some(accessToken) =>
      match Lookup(form, "expires_in")
      case None => Missing(MissingExpiresIn)
      case Some(expiresIn) =>
        match Lookup(form, "state")
        case None => Missing(MissingState)
        case Some(state) =>
          if state == secret then Matched(accessToken, expiresIn) else Mismatch
  }

  /**
   * The token built after a matching state: `expires = now + expires_in`,
   * no refresh token, no scope; a non-numeric `expires_in` panics.
   */
  function FinishToken(accessToken: string, expiresIn: string, now: Instant): (v: Verdict<TokenInfo>)
    ensures v.Accept? <==> ParseU64(expiresIn).Some?
    ensures v.Panic? ==> v.reason == BadExpiresIn
    ensures v.Accept? ==>
      && v.value.accessToken == accessToken
      && v.value.refreshToken.None?
      && v.value.scope.None?
      && v.value.expires == Some(now + ParseU64(expiresIn).value)
      && now <= v.value.expires.value < now + U64Limit
  {
    match ParseU64(expiresIn)
    case None => Panic(BadExpiresIn)
    case Some(seconds) => Accept(TokenInfo(accessToken, None, Some(now + seconds), None))
  }

  /** The `get_token_data` check on a decoded form body, as written. */
  function TokenFromForm(form: Pairs, secret: string, now: Instant): (v: Verdict<TokenInfo>)
    ensures v.Ignore? <==>
      HasName(form, "access_token") && HasName(form, "expires_in") &&
      HasName(form, "state") && Lookup(form, "state") != Some(secret)
    ensures v.Accept? ==>
      && Lookup(form, "state") == Some(secret)
      && Lookup(form, "access_token") == Some(v.value.accessToken)
      && Lookup(form, "expires_in").Some?
      && ParseU64(Lookup(form, "expires_in").value).Some?
      && v.value == TokenInfo(v.value.accessToken, None,
                              Some(now + ParseU64(Lookup(form, "expires_in").value).value), None)
    ensures v.Panic? <==>
      !HasName(form, "access_token") || !HasName(form, "expires_in") || !HasName(form, "state") ||
      (Lookup(form, "state") == Some(secret) && ParseU64(Lookup(form, "expires_in").value).None?)
  {
    match CheckForm(form, secret)
    case Missing(p) => Panic(p)
    case Mismatch => Ignore
    case Matched(accessToken, expiresIn) => FinishToken(accessToken, expiresIn, now)
  }

  /**
   * A mismatching state is decided before `expires_in` is parsed, so a
   * forged callback with a garbage number is ignored, not a panic.
   */
  lemma MismatchBeforeParse(accessToken: string, expiresIn: string, state: string, secret: string, now: Instant)
    requires state != secret
    ensures TokenFromForm([("access_token", accessToken), ("expires_in", expiresIn), ("state", state)],
                          secret, now) == Ignore
  {
    ThreeFieldLookups(accessToken, expiresIn, state);
  }

  /** Looking up each of the three names in a form listing them once each, in order. */
  lemma ThreeFieldLookups(accessToken: string, expiresIn: string, state: string)
    ensures var form := [("access_token", accessToken), ("expires_in", expiresIn), ("state", state)];
      && Lookup(form, "access_token") == Some(accessToken)
      && Lookup(form, "expires_in") == Some(expiresIn)
      && Lookup(form, "state") == Some(state)
  {
    var form := [("access_token", accessToken), ("expires_in", expiresIn), ("state", state)];
    assert "access_token" != "expires_in" && "access_token" != "state" && "expires_in" != "state";
    assert form[1..] == [("expires_in", expiresIn), ("state", state)];
    assert form[1..][1..] == [("state", state)];
    assert Lookup(form[1..][1..], "state") == Some(state);
    assert Lookup(form[1..], "state") == Some(state);
  }

  /** A well-formed form post with the right state yields the expected token. */
  lemma {:induction false} FormPostRoundTrip(accessToken: string, seconds: nat, secret: string, now: Instant)
    requires seconds < U64Limit
    ensures TokenFromForm([("access_token", accessToken), ("expires_in", DecimalString(seconds)), ("state", secret)],
                          secret, now)
         == Accept(TokenInfo(accessToken, None, Some(now + seconds), None))
  {
    ParseDecimalRoundTrip(seconds);
    ThreeFieldLookups(accessToken, DecimalString(seconds), secret);
  }

  /**
   * The form check with the panics replaced by "ignore and keep waiting":
   * a malformed callback is not proof that the legitimate one will not come.
   */
  function TolerantTokenFromForm(form: Pairs, secret: string, now: Instant): (v: Verdict<TokenInfo>)
    ensures !v.Panic?
    ensures !TokenFromForm(form, secret, now).Panic? ==> v == TokenFromForm(form, secret, now)
    ensures TokenFromForm(form, secret, now).Panic? ==> v.Ignore?
  {
    match TokenFromForm(form, secret, now)
    case Panic(_) => Ignore
    case other => other
  }
}
