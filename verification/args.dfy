/**
 * Command-line arguments and the grant-specific checks run on them after
 * clap has parsed them. Each failed check exits the process with a clap
 * error of a given kind; here it is the first `Fail` returned.
 */
module Args {
  import opened Wrappers

  datatype Grant =
    | AuthorizationCodeWithPkce
    | AuthorizationCode
    | Implicit
    | ResourceOwnerPasswordClientCredentials
    | ClientCredentials

  datatype TokenType = IdToken | AccessToken

  type Port = p: int | 0 <= p < 0x1_0000

  datatype Arguments = Arguments(
    grant: Grant,
    tokenUrl: Option<string>,
    authorizationUrl: Option<string>,
    discoveryUrl: Option<string>,
    clientId: string,
    port: Port,
    clientSecret: Option<string>,
    clientSecretStdin: bool,
    username: Option<string>,
    password: Option<string>,
    passwordStdin: bool,
    scope: string,
    audience: Option<string>,
    force: bool,
    debug: bool,
    tokenType: TokenType)

  datatype ErrorKind = MissingRequiredArgument | ArgumentConflict

  /**
   * `cmd.error(kind, message)`, or the conflict clap itself reports for
   * the "oauth2" and "oidc" argument groups (its text is clap's own).
   */
  datatype ArgError = CommandError(kind: ErrorKind, message: string) | GroupConflict {
    function Kind(): ErrorKind {
      match this
      case CommandError(kind, _) => kind
      case GroupConflict => ArgumentConflict
    }
  }

  datatype Check = Pass | Fail(error: ArgError)

  const AuthorizationUrlsMessage: string :=
    "<--token-url, --authorization-url|--discovery-url> arguments have to be provided"
  const TokenEndpointMessage: string :=
    "<--token-url|--discovery-url> arguments have to be provided"
  const ClientSecretMessage: string :=
    "--client-secret or --client-secret-stdin is required while used with `client-credentials` grant."
  const UsernameMessage: string :=
    "--username is required while used with `resource-owner-password-client-credentials` grant."
  const PasswordMessage: string :=
    "--password or --password-stdin is required while used with `resource-owner-password-client-credentials` grant."
  const ImplicitTokenUrlMessage: string :=
    "--token-url cannot be used with:\n\t--grant implicit"
  const ImplicitUrlsMessage: string :=
    "<--authorization-url|--discovery-url> arguments have to be provided"

  function Missing(message: string): Check {
    Fail(CommandError(MissingRequiredArgument, message))
  }

  /**
   * The values clap fills in when an argument is not given: the PKCE
   * grant, port 8081, scope `offline_access`, an access token, and no
   * URL, secret, username or password.
   */
  function Defaults(clientId: string): (a: Arguments)
    ensures a.clientId == clientId
    ensures a.grant == AuthorizationCodeWithPkce && a.tokenType == AccessToken
    ensures a.port == 8081 && a.scope == "offline_access"
    ensures !AnyUrl(a) && !HasClientSecret(a) && a.username.None? && !HasPassword(a)
    ensures a.audience.None? && !a.force && !a.debug
  {
    Arguments(
      grant := AuthorizationCodeWithPkce,
      tokenUrl := None,
      authorizationUrl := None,
      discoveryUrl := None,
      clientId := clientId,
      port := 8081,
      clientSecret := None,
      clientSecretStdin := false,
      username := None,
      password := None,
      passwordStdin := false,
      scope := "offline_access",
      audience := None,
      force := false,
      debug := false,
      tokenType := AccessToken)
  }

  // Independent statements of what each grant needs.

  predicate AnyUrl(a: Arguments) {
    a.tokenUrl.Some? || a.authorizationUrl.Some? || a.discoveryUrl.Some?
  }

  predicate HasTokenEndpoint(a: Arguments) {
    a.tokenUrl.Some? || a.discoveryUrl.Some?
  }

  predicate HasClientSecret(a: Arguments) {
    a.clientSecret.Some? || a.clientSecretStdin
  }

  predicate HasPassword(a: Arguments) {
    a.password.Some? || a.passwordStdin
  }

  /** The arguments a grant needs, with no regard to the order of checking. */
  predicate GrantRequirementsMet(a: Arguments) {
    match a.grant
    case AuthorizationCodeWithPkce => AnyUrl(a)
    case AuthorizationCode => AnyUrl(a)
    case ResourceOwnerPasswordClientCredentials =>
      HasTokenEndpoint(a) && HasClientSecret(a) && a.username.Some? && HasPassword(a)
    case ClientCredentials => HasTokenEndpoint(a) && HasClientSecret(a)
    case Implicit => a.tokenUrl.None? && (a.authorizationUrl.Some? || a.discoveryUrl.Some?)
  }

  /** `assert_urls_for_authorization_grants`: at least one of the three URLs. */
  function AssertUrlsForAuthorizationGrants(a: Arguments): (r: Check)
    ensures r.Pass? <==> AnyUrl(a)
    ensures r.Fail? ==> r == Missing(AuthorizationUrlsMessage)
  {
    if a.tokenUrl.None? && a.authorizationUrl.None? && a.discoveryUrl.None? then
      Missing(AuthorizationUrlsMessage)
    else
      Pass
  }

  /**
   * `assert_grant_specific_arguments`: the checks of the chosen grant, in
   * source order; the first that fails decides the error.
   */
  function AssertGrantSpecificArguments(a: Arguments): (r: Check)
    ensures r.Pass? <==> GrantRequirementsMet(a)
    ensures r.Fail? ==> r.error.CommandError?
    ensures r.Fail? && r.error.Kind() == ArgumentConflict <==> a.grant == Implicit && a.tokenUrl.Some?
    ensures a.grant in {AuthorizationCodeWithPkce, AuthorizationCode} ==> r == AssertUrlsForAuthorizationGrants(a)
  {
    match a.grant
    case AuthorizationCodeWithPkce => AssertUrlsForAuthorizationGrants(a)
    case AuthorizationCode => AssertUrlsForAuthorizationGrants(a)
    case ResourceOwnerPasswordClientCredentials =>
      if a.tokenUrl.None? && a.discoveryUrl.None? then Missing(TokenEndpointMessage)
      else if a.clientSecret.None? && !a.clientSecretStdin then Missing(ClientSecretMessage)
      else if a.username.None? then Missing(UsernameMessage)
      else if a.password.None? && !a.passwordStdin then Missing(PasswordMessage)
      else Pass
    case ClientCredentials =>
      if a.tokenUrl.None? && a.discoveryUrl.None? then Missing(TokenEndpointMessage)
      else if a.clientSecret.None? && !a.clientSecretStdin then Missing(ClientSecretMessage)
      else Pass
    case Implicit =>
      if a.tokenUrl.Some? then Fail(CommandError(ArgumentConflict, ImplicitTokenUrlMessage))
      else if a.authorizationUrl.None? && a.discoveryUrl.None? then Missing(ImplicitUrlsMessage)
      else Pass
  }

  /** The three URL arguments, as clap's argument groups name them. */
  datatype UrlArg = TokenUrlArg | AuthorizationUrlArg | DiscoveryUrlArg

  /** The "oauth2" group: several of its members may be given together. */
  const OAuth2Group: set<UrlArg> := {TokenUrlArg, AuthorizationUrlArg}

  /** The "oidc" group. */
  const OidcGroup: set<UrlArg> := {DiscoveryUrlArg}

  /** The URL arguments given on the command line or in the environment. */
  function Present(a: Arguments): set<UrlArg> {
    (if a.tokenUrl.Some? then {TokenUrlArg} else {})
    + (if a.authorizationUrl.Some? then {AuthorizationUrlArg} else {})
    + (if a.discoveryUrl.Some? then {DiscoveryUrlArg} else {})
  }

  /**
   * The "oidc" group conflicts with the "oauth2" group: clap refuses the
   * arguments iff a member of each group is present.
   */
  function GroupsConflict(a: Arguments): (b: bool)
    ensures b <==> Present(a) * OAuth2Group != {} && Present(a) * OidcGroup != {}
  {
    a.discoveryUrl.Some? && (a.tokenUrl.Some? || a.authorizationUrl.Some?)
  }

  /**
   * What `Args::parse` decides before reading secrets from stdin: clap's
   * group conflict first, then the grant-specific checks.
   */
  function Validate(a: Arguments): (r: Check)
    ensures r.Pass? <==> !GroupsConflict(a) && GrantRequirementsMet(a)
    ensures GroupsConflict(a) ==> r == Fail(GroupConflict)
    ensures !GroupsConflict(a) ==> r == AssertGrantSpecificArguments(a)
  {
    if GroupsConflict(a) then Fail(GroupConflict) else AssertGrantSpecificArguments(a)
  }

  /** For the two authorization-code grants any one URL is enough; `token_url` alone passes. */
  lemma AuthorizationCodeNeedsAnyUrl(a: Arguments)
    requires a.grant == AuthorizationCodeWithPkce || a.grant == AuthorizationCode
    ensures AssertGrantSpecificArguments(a).Fail? <==>
      a.tokenUrl.None? && a.authorizationUrl.None? && a.discoveryUrl.None?
    ensures AssertGrantSpecificArguments(a).Fail? ==>
      AssertGrantSpecificArguments(a).error.Kind() == MissingRequiredArgument
    ensures a.tokenUrl.Some? ==> AssertGrantSpecificArguments(a) == Pass
  {
  }

  /** For the implicit grant `token_url` is a conflict, checked before any missing URL. */
  lemma ImplicitChecks(a: Arguments)
    requires a.grant == Implicit
    ensures a.tokenUrl.Some? ==>
      AssertGrantSpecificArguments(a) == Fail(CommandError(ArgumentConflict, ImplicitTokenUrlMessage))
    ensures a.tokenUrl.None? ==>
      (AssertGrantSpecificArguments(a).Fail? <==> a.authorizationUrl.None? && a.discoveryUrl.None?)
  {
  }

  /** Resource owner password: endpoint, then secret, then username, then password. */
  lemma PasswordGrantCheckOrder(a: Arguments)
    requires a.grant == ResourceOwnerPasswordClientCredentials
    ensures var r := AssertGrantSpecificArguments(a);
      && (!HasTokenEndpoint(a) ==> r == Missing(TokenEndpointMessage))
      && (HasTokenEndpoint(a) && !HasClientSecret(a) ==> r == Missing(ClientSecretMessage))
      && (HasTokenEndpoint(a) && HasClientSecret(a) && a.username.None? ==> r == Missing(UsernameMessage))
      && (HasTokenEndpoint(a) && HasClientSecret(a) && a.username.Some? && !HasPassword(a) ==> r == Missing(PasswordMessage))
  {
  }

  /** Client credentials: endpoint, then secret. */
  lemma ClientCredentialsCheckOrder(a: Arguments)
    requires a.grant == ClientCredentials
    ensures var r := AssertGrantSpecificArguments(a);
      && (!HasTokenEndpoint(a) ==> r == Missing(TokenEndpointMessage))
      && (HasTokenEndpoint(a) && !HasClientSecret(a) ==> r == Missing(ClientSecretMessage))
  {
  }

  /**
   * Only the grant, the three URLs, the client secret, username and
   * password settings matter: scope, audience, port, client id, force,
   * debug and token type never change the verdict.
   */
  lemma IrrelevantFieldsIgnored(a: Arguments, b: Arguments)
    requires a.grant == b.grant && a.tokenUrl == b.tokenUrl && a.authorizationUrl == b.authorizationUrl
    requires a.discoveryUrl == b.discoveryUrl && a.clientSecret == b.clientSecret
    requires a.clientSecretStdin == b.clientSecretStdin && a.username == b.username
    requires a.password == b.password && a.passwordStdin == b.passwordStdin
    ensures Validate(a) == Validate(b)
  {
  }

  /**
   * With the defaults, validation asks for a URL; one `token_url` or one
   * `discovery_url` is then enough, and both together conflict.
   */
  lemma DefaultsNeedOneUrl(clientId: string, url: string)
    ensures Validate(Defaults(clientId)) == Missing(AuthorizationUrlsMessage)
    ensures Validate(Defaults(clientId).(tokenUrl := Some(url))) == Pass
    ensures Validate(Defaults(clientId).(discoveryUrl := Some(url))) == Pass
    ensures Validate(Defaults(clientId).(discoveryUrl := Some(url), tokenUrl := Some(url))) == Fail(GroupConflict)
  {
  }
}
