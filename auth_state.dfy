/**
 * The authentication state of `GoogleApi` (`__init__`, `init_auth`,
 * `ensure_auth`, `services_tuple`): a flag, the last error and the seven
 * service handles, updated together.  The environment the credential search
 * runs in is passed to each call, since a token file may appear between calls.
 */
module AuthState {
  import opened Options
  import opened OAuthFlow

  class GoogleApi {
    const clientFile: Option<string>
    const interactive: Option<bool>

    var googleAuth: bool
    var error: Option<Failure>

    var driveService: Option<Client>
    var docsService: Option<Client>
    var sheetsService: Option<Client>
    var calendarService: Option<Client>
    var tasksService: Option<Client>
    var formsService: Option<Client>
    var gmailService: Option<Client>

    /** The seven handles, in the source's order. */
    function Handles(): (hs: seq<Option<Client>>)
      reads this
      ensures |hs| == 7
    {
      [driveService, docsService, sheetsService, calendarService, tasksService, formsService, gmailService]
    }

    /** Authenticated: every handle present, built with one set of credentials.
        Not authenticated: every handle absent. */
    predicate Valid()
      reads this
    {
      if googleAuth then
        && driveService.Some? && docsService.Some? && sheetsService.Some? && calendarService.Some?
        && tasksService.Some? && formsService.Some? && gmailService.Some?
        && WellBuilt(Services(driveService.value, docsService.value, sheetsService.value, calendarService.value,
                              tasksService.value, formsService.value, gmailService.value),
                     driveService.value.creds)
      else
        forall i :: 0 <= i < 7 ==> Handles()[i].None?
    }

    constructor(clientFile: Option<string>, interactive: Option<bool>, autoInit: bool, env: Environment)
      ensures this.clientFile == clientFile && this.interactive == interactive
      ensures Valid()
      ensures autoInit ==> googleAuth == TryGetGoogleServices(clientFile, interactive, env).Ok()
      ensures autoInit ==> error == TryGetGoogleServices(clientFile, interactive, env).error
      ensures !autoInit ==> !googleAuth && error.None?
    {
      this.clientFile := clientFile;
      this.interactive := interactive;
      googleAuth := false;
      error := None;
      driveService, docsService, sheetsService := None, None, None;
      calendarService, tasksService, formsService := None, None, None;
      gmailService := None;
      new;
      if autoInit {
        var _ := InitAuth(env);
      }
    }

    /** Runs the credential search; on success stores the seven clients, on
        failure clears every handle.  The error is stored either way. */
    method InitAuth(env: Environment) returns (ok: bool)
      modifies this
      ensures ok == googleAuth == TryGetGoogleServices(clientFile, interactive, env).Ok()
      ensures error == TryGetGoogleServices(clientFile, interactive, env).error
      ensures Valid()
      ensures ok ==> ServicesTuple() == Some(TryGetGoogleServices(clientFile, interactive, env).services.value)
      ensures !ok ==> forall i :: 0 <= i < 7 ==> Handles()[i].None?
      ensures !ok ==> ServicesTuple().None?
    {
      var res := TryGetGoogleServices(clientFile, interactive, env);
      googleAuth := res.Ok();
      error := res.error;
      if googleAuth {
        var s := res.services.value;
        driveService, docsService, sheetsService := Some(s.drive), Some(s.docs), Some(s.sheets);
        calendarService, tasksService, formsService := Some(s.calendar), Some(s.tasks), Some(s.forms);
        gmailService := Some(s.gmail);
      } else {
        driveService, docsService, sheetsService := None, None, None;
        calendarService, tasksService, formsService := None, None, None;
        gmailService := None;
      }
      ok := googleAuth;
    }

    /** Authenticates again only when not already authenticated. */
    method EnsureAuth(env: Environment) returns (ok: bool)
      modifies this
      ensures old(googleAuth) ==> ok && unchanged(this)
      ensures !old(googleAuth) ==>
        ok == googleAuth == TryGetGoogleServices(clientFile, interactive, env).Ok()
        && error == TryGetGoogleServices(clientFile, interactive, env).error
      ensures !old(googleAuth) ==> Valid()
      ensures !old(googleAuth) && ok ==> ServicesTuple() == Some(TryGetGoogleServices(clientFile, interactive, env).services.value)
      ensures !old(googleAuth) && !ok ==> forall i :: 0 <= i < 7 ==> Handles()[i].None?
      ensures old(Valid()) ==> Valid()
    {
      if googleAuth {
        ok := true;
      } else {
        ok := InitAuth(env);
      }
    }

    /** The seven services when authenticated; nothing otherwise. */
    function ServicesTuple(): (r: Option<Services>)
      reads this
      requires Valid()
      ensures r.None? <==> !googleAuth
      ensures r.Some? ==> WellBuilt(r.value, r.value.drive.creds)
      ensures r.Some? ==> forall i :: 0 <= i < 7 ==> Handles()[i].Some?
    {
      if !googleAuth then None
      else Some(Services(driveService.value, docsService.value, sheetsService.value, calendarService.value,
                         tasksService.value, formsService.value, gmailService.value))
    }
  }
}
