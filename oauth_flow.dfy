/**
 * Credential acquisition (`google_api.py`): the ordered decision of
 * `get_oauth_credentials` and the wrapper `try_get_google_services_oauth`.
 *
 * Every effect the source performs is an input here: what the token file
 * holds, whether a refresh succeeds, whether the process runs in Colab, the
 * `GOOGLE_OAUTH_CLIENT_INFO` variable, what Colab's default credentials turn
 * out to be, which client files exist, and what the browser flow returns.
 * Writing the token back and building the seven service clients are not
 * modelled beyond "the build succeeded or raised".
 */
module OAuthFlow {
  import opened Options

  /** The scopes every credential must carry. */
  const Scopes: seq<string> := [
    "https://www.googleapis.com/auth/gmail.send",
    "https://www.googleapis.com/auth/drive",
    "https://www.googleapis.com/auth/documents",
    "https://www.googleapis.com/auth/spreadsheets",
    "https://www.googleapis.com/auth/calendar",
    "https://www.googleapis.com/auth/tasks",
    "https://www.googleapis.com/auth/forms"
  ]

  const DefaultClientFile: string := "oauth-client.json"

  /** The state of a credentials object that matters to the decision. */
  datatype Creds = Creds(scopes: Option<seq<string>>, valid: bool, expired: bool, hasRefreshToken: bool)

  /** What `<token dir>/<stem>.json` holds. */
  datatype TokenFile = NoTokenFile | UnreadableToken | StoredToken(creds: Creds)

  /** What `GOOGLE_OAUTH_CLIENT_INFO` holds: unset or empty, text that is not
      JSON, or JSON that parses to `null`, to a falsy value (`{}`), or to a
      truthy one. */
  datatype EnvClientInfo = EnvUnset | EnvMalformed | EnvNull | EnvFalsy | EnvTruthy

  /** What `_colab_credentials` does: raises, or returns credentials. */
  datatype ColabOutcome = ColabRaises | ColabCreds(creds: Creds)

  /** What `run_local_server` does: raises, or returns the consented credentials. */
  datatype FlowOutcome = FlowRaises | FlowCreds(creds: Creds)

  datatype Environment = Environment(
    token: TokenFile,
    loadRefreshSucceeds: bool,   // refreshing an expired token inside `_load_token`
    refreshSucceeds: bool,       // refreshing an invalid token in the main path
    inColab: bool,
    envClient: EnvClientInfo,
    colab: ColabOutcome,
    clientFileExists: string -> bool,
    flow: FlowOutcome,
    buildSucceeds: bool)         // building the seven service clients

  /** Why a call raised. */
  datatype Failure =
    | TokenUnreadable        // `json.loads` on the token file
    | RefreshFailed          // `creds.refresh` in the main path
    | EnvClientUnreadable    // `json.loads` on the environment variable
    | NotInteractive         // the `RuntimeError` for `interactive=False`
    | ClientFileMissing(path: string)
    | FlowFailed
    | BuildFailed

  datatype ClientSource = FromEnv | FromFile(path: string)

  /** Where the returned credentials came from, or why the call raised. */
  datatype Outcome =
    | FromToken(creds: Creds)
    | FromColab(creds: Creds)
    | FromFlow(creds: Creds, source: ClientSource)
    | Raised(failure: Failure)

  /** The credentials after a successful refresh. */
  function Refreshed(c: Creds): (r: Creds)
    ensures r.valid && !r.expired && r.scopes == c.scopes && r.hasRefreshToken == c.hasRefreshToken
  {
    c.(valid := true, expired := false)
  }

  /** The set of `c.scopes or []`. */
  function ScopeSet(scopes: Option<seq<string>>): set<string>
  {
    if scopes.Some? then set i | 0 <= i < |scopes.value| :: scopes.value[i] else {}
  }

  function RequiredScopes(): set<string>
  {
    set i | 0 <= i < |Scopes| :: Scopes[i]
  }

  /** `_scopes_ok`: present, and carrying every required scope. */
  predicate ScopesOk(c: Option<Creds>)
  {
    c.Some? && RequiredScopes() <= ScopeSet(c.value.scopes)
  }

  /** The result of `_load_token`: no credentials, credentials, or a raise. */
  datatype Loaded = NoCreds | LoadedCreds(creds: Creds) | LoadRaised

  /** `_load_token`: nothing without a file, a refresh for an expired token
      holding a refresh token, and nothing when that refresh fails. */
  function LoadToken(token: TokenFile, refreshSucceeds: bool): (r: Loaded)
    ensures r.NoCreds? <==>
      (token.NoTokenFile?
       || (token.StoredToken? && token.creds.expired && token.creds.hasRefreshToken && !refreshSucceeds))
    ensures r.LoadRaised? <==> token.UnreadableToken?
    ensures r.LoadedCreds? ==> r.creds.scopes == token.creds.scopes
    ensures r.LoadedCreds? && token.creds.expired && token.creds.hasRefreshToken ==> r.creds.valid
  {
    match token
    case NoTokenFile => NoCreds
    case UnreadableToken => LoadRaised
    case StoredToken(c) =>
      if c.expired && c.hasRefreshToken then
        (if refreshSucceeds then LoadedCreds(Refreshed(c)) else NoCreds)
      else LoadedCreds(c)
  }

  /** `oauth_client_file or DEFAULT_OAUTH_CLIENT_FILE`: an empty name falls back too. */
  function ChosenClientFile(clientFile: Option<string>): (f: string)
    ensures f != ""
    ensures clientFile.Some? && clientFile.value != "" ==> f == clientFile.value
  {
    if clientFile.Some? && clientFile.value != "" then clientFile.value else DefaultClientFile
  }

  /** `_client_secrets_from_env() is None`: unset, empty or JSON `null`. */
  predicate EnvClientAbsent(e: EnvClientInfo)
  {
    e.EnvUnset? || e.EnvNull?
  }

  /** `get_oauth_credentials`, its steps taken in the source's order. */
  function GetOAuthCredentials(clientFile: Option<string>, interactive: Option<bool>, env: Environment): (r: Outcome)
    ensures r.FromToken? || r.FromColab? ==> RequiredScopes() <= ScopeSet(r.creds.scopes)
    ensures r.FromToken? ==> r.creds.valid
    ensures r.FromColab? ==> env.inColab && env.colab == ColabCreds(r.creds)
    ensures r.FromFlow? ==> interactive != Some(false) && env.flow == FlowCreds(r.creds)
  {
    match LoadToken(env.token, env.loadRefreshSucceeds)
    case LoadRaised => Raised(TokenUnreadable)
    case LoadedCreds(c) =>
      if ScopesOk(Some(c)) then
        if c.valid then FromToken(c)
        else if c.hasRefreshToken then
          (if env.refreshSucceeds then FromToken(Refreshed(c)) else Raised(RefreshFailed))
        else AfterToken(clientFile, interactive, env)
      else AfterToken(clientFile, interactive, env)
    case NoCreds => AfterToken(clientFile, interactive, env)
  }

  /** The steps after the saved token: Colab, the interactive guard, the flow. */
  function AfterToken(clientFile: Option<string>, interactive: Option<bool>, env: Environment): (r: Outcome)
    ensures !r.FromToken?
    ensures r.FromColab? ==> env.inColab && env.colab == ColabCreds(r.creds) && RequiredScopes() <= ScopeSet(r.creds.scopes)
    ensures r.FromFlow? ==> interactive != Some(false) && env.flow == FlowCreds(r.creds)
    ensures env.envClient.EnvMalformed? ==> r == Raised(EnvClientUnreadable)
  {
    if env.envClient.EnvMalformed? then Raised(EnvClientUnreadable)
    else
      var noClientInfo := EnvClientAbsent(env.envClient) && clientFile.None?;
      if env.inColab && noClientInfo && env.colab.ColabCreds? && RequiredScopes() <= ScopeSet(env.colab.creds.scopes) then
        FromColab(env.colab.creds)
      else if interactive == Some(false) then Raised(NotInteractive)
      else
        var source :=
          if env.envClient.EnvTruthy? then Some(FromEnv)
          else if env.clientFileExists(ChosenClientFile(clientFile)) then Some(FromFile(ChosenClientFile(clientFile)))
          else None;
        if source.None? then Raised(ClientFileMissing(ChosenClientFile(clientFile)))
        else if env.flow.FlowCreds? then FromFlow(env.flow.creds, source.value)
        else Raised(FlowFailed)
  }

  // ---------------------------------------------------------------------
  // The saved token

  /** A loaded token that passes the scope check and is valid is returned. */
  lemma ValidTokenReturned(clientFile: Option<string>, interactive: Option<bool>, env: Environment, c: Creds)
    requires LoadToken(env.token, env.loadRefreshSucceeds) == LoadedCreds(c)
    requires ScopesOk(Some(c)) && c.valid
    ensures GetOAuthCredentials(clientFile, interactive, env) == FromToken(c)
  {
  }

  /** An invalid scoped token with a refresh token is refreshed and returned,
      or the refresh's failure is raised. */
  lemma InvalidTokenRefreshed(clientFile: Option<string>, interactive: Option<bool>, env: Environment, c: Creds)
    requires LoadToken(env.token, env.loadRefreshSucceeds) == LoadedCreds(c)
    requires ScopesOk(Some(c)) && !c.valid && c.hasRefreshToken
    ensures GetOAuthCredentials(clientFile, interactive, env)
         == (if env.refreshSucceeds then FromToken(Refreshed(c)) else Raised(RefreshFailed))
  {
  }

  /** An invalid token without a refresh token falls through to the later
      steps, exactly as if no token had been saved. */
  lemma InvalidTokenFallsThrough(clientFile: Option<string>, interactive: Option<bool>, env: Environment, c: Creds)
    requires LoadToken(env.token, env.loadRefreshSucceeds) == LoadedCreds(c)
    requires !c.valid && !c.hasRefreshToken
    ensures GetOAuthCredentials(clientFile, interactive, env)
         == GetOAuthCredentials(clientFile, interactive, env.(token := NoTokenFile))
  {
  }

  /** Credentials returned from the token always carry every required scope,
      however valid a token with fewer scopes may be. */
  lemma TokenResultScoped(clientFile: Option<string>, interactive: Option<bool>, env: Environment)
    ensures var r := GetOAuthCredentials(clientFile, interactive, env);
      r.FromToken? ==> RequiredScopes() <= ScopeSet(r.creds.scopes)
    ensures var r := GetOAuthCredentials(clientFile, interactive, env);
      r.FromToken? ==> env.token.StoredToken? && ScopesOk(Some(env.token.creds))
  {
  }

  // ---------------------------------------------------------------------
  // Colab, the interactive guard, the client configuration

  /** Colab credentials are returned only in Colab, with neither an environment
      client nor a client-file argument, and with every required scope. */
  lemma ColabResultConditions(clientFile: Option<string>, interactive: Option<bool>, env: Environment)
    ensures var r := GetOAuthCredentials(clientFile, interactive, env);
      r.FromColab? ==>
        (env.inColab && EnvClientAbsent(env.envClient) && clientFile.None?
         && env.colab == ColabCreds(r.creds) && RequiredScopes() <= ScopeSet(r.creds.scopes))
  {
  }

  /** With `interactive=False` the browser flow is never run; a call that gets
      past the token and Colab steps raises `NotInteractive`. */
  lemma NonInteractiveNeverRunsFlow(clientFile: Option<string>, env: Environment)
    ensures var r := GetOAuthCredentials(clientFile, Some(false), env);
      !r.FromFlow? && (r.Raised? ==> r.failure in {TokenUnreadable, RefreshFailed, EnvClientUnreadable, NotInteractive})
  {
  }

  /** `interactive=None` behaves exactly like `interactive=True`. */
  lemma InteractiveDefault(clientFile: Option<string>, env: Environment)
    ensures GetOAuthCredentials(clientFile, None, env) == GetOAuthCredentials(clientFile, Some(true), env)
  {
  }

  /** The flow is configured from the environment exactly when the variable
      parses to a truthy value; otherwise from the chosen client file, which exists. */
  lemma FlowSource(clientFile: Option<string>, interactive: Option<bool>, env: Environment)
    ensures var r := GetOAuthCredentials(clientFile, interactive, env);
      r.FromFlow? ==>
        ((r.source == FromEnv <==> env.envClient.EnvTruthy?)
         && (r.source.FromFile? ==> r.source.path == ChosenClientFile(clientFile) && env.clientFileExists(r.source.path)))
  {
  }

  /** Once the flow is reached, a missing client file raises exactly when the
      environment holds no truthy client configuration. */
  lemma MissingClientFile(clientFile: Option<string>, interactive: Option<bool>, env: Environment)
    requires LoadToken(env.token, env.loadRefreshSucceeds).NoCreds?
    requires !env.inColab && !env.envClient.EnvMalformed? && interactive != Some(false)
    requires !env.clientFileExists(ChosenClientFile(clientFile))
    ensures GetOAuthCredentials(clientFile, interactive, env).Raised?
         == (!env.envClient.EnvTruthy? || env.flow.FlowRaises?)
    ensures !env.envClient.EnvTruthy? ==>
      GetOAuthCredentials(clientFile, interactive, env) == Raised(ClientFileMissing(ChosenClientFile(clientFile)))
    ensures env.envClient.EnvTruthy? ==>
      !(GetOAuthCredentials(clientFile, interactive, env).Raised? && GetOAuthCredentials(clientFile, interactive, env).failure.ClientFileMissing?)
  {
  }

  // ---------------------------------------------------------------------
  // `try_get_google_services_oauth`

  datatype ServiceKind = Drive | Docs | Sheets | Calendar | Tasks | Forms | Gmail

  /** A service client built with `build(<service>, <version>, credentials=creds)`. */
  datatype Client = Client(kind: ServiceKind, creds: Creds)

  /** The seven clients of `get_google_services_oauth`, in its order. */
  datatype Services = Services(drive: Client, docs: Client, sheets: Client, calendar: Client,
                               tasks: Client, forms: Client, gmail: Client)

  /** All seven clients share one set of credentials and each is of its own service. */
  predicate WellBuilt(s: Services, c: Creds)
  {
    && s.drive == Client(Drive, c) && s.docs == Client(Docs, c) && s.sheets == Client(Sheets, c)
    && s.calendar == Client(Calendar, c) && s.tasks == Client(Tasks, c) && s.forms == Client(Forms, c)
    && s.gmail == Client(Gmail, c)
  }

  function BuildServices(c: Creds): (s: Services)
    ensures WellBuilt(s, c)
  {
    Services(Client(Drive, c), Client(Docs, c), Client(Sheets, c), Client(Calendar, c),
             Client(Tasks, c), Client(Forms, c), Client(Gmail, c))
  }

  datatype GoogleAuthResult = GoogleAuthResult(services: Option<Services>, authFailed: bool, error: Option<Failure>)
  {
    /** `ok`: not failed and services present. */
    predicate Ok()
    {
      !authFailed && services.Some?
    }
  }

  function CredsOf(o: Outcome): Creds
    requires !o.Raised?
  {
    match o
    case FromToken(c) => c
    case FromColab(c) => c
    case FromFlow(c, _) => c
  }

  /** Every raise becomes a failed result carrying the error; otherwise the
      services built from the credentials. */
  function TryGetGoogleServices(clientFile: Option<string>, interactive: Option<bool>, env: Environment): (r: GoogleAuthResult)
    ensures r.services.None? <==> r.authFailed
    ensures r.authFailed <==> r.error.Some?
    ensures r.Ok() <==> !GetOAuthCredentials(clientFile, interactive, env).Raised? && env.buildSucceeds
    ensures GetOAuthCredentials(clientFile, interactive, env).Raised? ==>
      r.error == Some(GetOAuthCredentials(clientFile, interactive, env).failure)
    ensures r.Ok() ==> WellBuilt(r.services.value, CredsOf(GetOAuthCredentials(clientFile, interactive, env)))
  {
    var o := GetOAuthCredentials(clientFile, interactive, env);
    if o.Raised? then GoogleAuthResult(None, true, Some(o.failure))
    else if !env.buildSucceeds then GoogleAuthResult(None, true, Some(BuildFailed))
    else GoogleAuthResult(Some(BuildServices(CredsOf(o))), false, None)
  }
}
