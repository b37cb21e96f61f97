/**
 The authorization server of fake-as/ipmx_fake_as.py: authorization codes (sections 4.1.2 and
 4.1.3 of RFC 6749), refresh tokens (section 6) and the audit trail.

 A request carries what the handler reads from outside: the form fields, one reading of the
 clock, and the random string drawn if one is needed.
 */
module OAuth {
  import opened Outcome

  const CODE_TTL := 60.0
  const REFRESH_TTL := 28800.0

  /** A registered client; no secret marks a public client. */
  datatype Client = Client(id: string, secret: Option<string>, redirectUris: seq<string>)

  type NonEmpty = s: string | s != "" witness "x"

  /** The scope of the source's token template. */
  const TEMPLATE_SCOPE := "node connection streamcompatibility manufacturer query"

  /** What the server was set up with; `template` is the scope of a token template that names none. */
  datatype Config = Config(clients: seq<Client>, username: string, password: string, template: NonEmpty)

  datatype Code = Code(client: string, redirectUri: string, scope: string, subject: string, expires: real, redeemed: bool)

  datatype Grant = Grant(client: string, scope: string, subject: string, expires: real)

  datatype Event = AuthorizationDenied | AuthorizationGranted | TokenIssued | ClientAuthenticationFailed

  datatype Entry = Entry(event: Event, subject: string, client: string, scope: string)

  datatype State = State(codes: map<string, Code>, grants: map<string, Grant>, audit: seq<Entry>)

  datatype Request =
    | Authorize(client: string, redirectUri: string, responseType: string, scope: string,
                username: string, password: string, now: real, draw: string)
    | Exchange(client: string, secret: Option<string>, code: string, redirectUri: string, now: real, draw: string)
    | Refresh(client: string, secret: Option<string>, token: string, now: real, draw: string)
    | Credentials(client: string, draw: string)

  /** What an access token says: the client, the party it was authorized through, subject and scope. */
  datatype Claims = Claims(client: string, azp: Option<string>, subject: string, scope: string)

  datatype Response =
    | Refused
    | CodeIssued(code: string)
    | Tokens(access: Claims, scope: string, refresh: string)
    | AccessToken(access: Claims)

  const INITIAL := State(map[], map[], [])

  // ---------------------------------------------------------------------------
  // The handlers, as functions of the state
  // ---------------------------------------------------------------------------

  function Lookup(clients: seq<Client>, id: string): Option<Client> {
    if clients == [] then None
    else if clients[0].id == id then Some(clients[0])
    else Lookup(clients[1..], id)
  }

  /** `authenticates_with`: a public client must present no secret. */
  predicate Authenticates(client: Client, secret: Option<string>) {
    if client.secret.None? then secret.None? || secret.value == ""
    else (if secret.Some? then secret.value else "") == client.secret.value
  }

  /** `_validate_authorization_request`. */
  predicate ValidRequest(config: Config, r: Request)
    requires r.Authorize?
  {
    var client := Lookup(config.clients, r.client);
    client.Some? && r.redirectUri != "" && r.redirectUri in client.value.redirectUris && r.responseType == "code"
  }

  function Log(s: State, e: Entry): State {
    s.(audit := s.audit + [e])
  }

  function StepAuthorize(config: Config, s: State, r: Request): (State, Response)
    requires r.Authorize?
  {
    if !ValidRequest(config, r) then (s, Refused)
    else if !(r.username == config.username && r.password == config.password) then
      (Log(s, Entry(AuthorizationDenied, if r.username == "" then "(anonymous)" else r.username, r.client, "")), Refused)
    else
      var code := Code(r.client, r.redirectUri, r.scope, config.username, r.now + CODE_TTL, false);
      (Log(s.(codes := s.codes[r.draw := code]), Entry(AuthorizationGranted, config.username, r.client, r.scope)),
       CodeIssued(r.draw))
  }

  /** The claims that `mint_token` makes of a template, with the subject that the grant sets. */
  function Mint(client: string, subject: string, scope: string, userBacked: bool): Claims {
    Claims(client, if userBacked then Some(client) else None, subject, scope)
  }

  /** The access token of a user-backed grant: an empty scope leaves the template's own. */
  function UserClaims(template: NonEmpty, client: string, subject: string, scope: string): Claims {
    Mint(client, subject, if scope != "" then scope else template, true)
  }

  /** `_issue_tokens`: an access token, a fresh refresh grant and one audit entry. */
  function Issue(template: NonEmpty, s: State, client: string, subject: string, scope: string, now: real, draw: string): (State, Response) {
    (Log(s.(grants := s.grants[draw := Grant(client, scope, subject, now + REFRESH_TTL)]),
         Entry(TokenIssued, subject, client, scope)),
     Tokens(UserClaims(template, client, subject, scope), scope, draw))
  }

  function StepExchange(template: NonEmpty, s: State, r: Request): (State, Response)
    requires r.Exchange?
  {
    if r.code !in s.codes || s.codes[r.code].redeemed || r.now >= s.codes[r.code].expires then (s, Refused)
    else
      var code := s.codes[r.code];
      if code.client != r.client || code.redirectUri != r.redirectUri then (s, Refused)
      else Issue(template, s.(codes := s.codes[r.code := code.(redeemed := true)]), r.client, code.subject, code.scope, r.now, r.draw)
  }

  function StepRefresh(template: NonEmpty, s: State, r: Request): (State, Response)
    requires r.Refresh?
  {
    if r.token !in s.grants || r.now >= s.grants[r.token].expires then (s, Refused)
    else
      var grant := s.grants[r.token];
      if grant.client != r.client then (s, Refused)
      else Issue(template, s.(grants := s.grants - {r.token}), r.client, grant.subject, grant.scope, r.now, r.draw)
  }

  /** `_handle_token` after its dispatch: authenticate the client, then run the grant. */
  function StepToken(config: Config, s: State, r: Request): (State, Response)
    requires r.Exchange? || r.Refresh?
  {
    var client := Lookup(config.clients, r.client);
    if client.None? then (s, Refused)
    else if !Authenticates(client.value, r.secret) then
      (Log(s, Entry(ClientAuthenticationFailed, "(client)", r.client, "")), Refused)
    else if r.Exchange? then StepExchange(config.template, s, r)
    else StepRefresh(config.template, s, r)
  }

  function Step(config: Config, s: State, r: Request): (State, Response) {
    match r
    case Authorize(_, _, _, _, _, _, _, _) => StepAuthorize(config, s, r)
    case Credentials(client, _) =>
      if client == "" then (s, Refused)
      else (Log(s, Entry(TokenIssued, client, client, "")), AccessToken(Mint(client, client, config.template, false)))
    case _ => StepToken(config, s, r)
  }

  // ---------------------------------------------------------------------------
  // The server object
  // ---------------------------------------------------------------------------

  class AuthorizationServer {
    const config: Config
    var codes: map<string, Code>
    var grants: map<string, Grant>
    var auditLog: seq<Entry>

    constructor (config: Config)
      ensures this.config == config && View() == INITIAL
    {
      this.config := config;
      codes, grants, auditLog := map[], map[], [];
    }

    ghost function View(): State
      reads this
    {
      State(codes, grants, auditLog)
    }

    method Audit(event: Event, subject: string, client: string, scope: string)
      modifies this`auditLog
      ensures View() == Log(old(View()), Entry(event, subject, client, scope))
    {
      auditLog := auditLog + [Entry(event, subject, client, scope)];
    }

    method HandleAuthorizePost(r: Request) returns (response: Response)
      requires r.Authorize?
      modifies this`codes, this`auditLog
      ensures (View(), response) == Step(config, old(View()), r)
    {
      if !ValidRequest(config, r) {
        return Refused;
      }
      if r.username != config.username || r.password != config.password {
        Audit(AuthorizationDenied, if r.username == "" then "(anonymous)" else r.username, r.client, "");
        return Refused;
      }
      codes := codes[r.draw := Code(r.client, r.redirectUri, r.scope, config.username, r.now + CODE_TTL, false)];
      Audit(AuthorizationGranted, config.username, r.client, r.scope);
      return CodeIssued(r.draw);
    }

    method IssueTokens(client: string, subject: string, scope: string, now: real, draw: string) returns (response: Response)
      modifies this`grants, this`auditLog
      ensures (View(), response) == Issue(config.template, old(View()), client, subject, scope, now, draw)
    {
      var templateScope: string := config.template;
      if scope != "" {
        templateScope := scope;
      }
      var access := Mint(client, subject, templateScope, true);
      grants := grants[draw := Grant(client, scope, subject, now + REFRESH_TTL)];
      Audit(TokenIssued, subject, client, scope);
      return Tokens(access, scope, draw);
    }

    method HandleAuthorizationCodeGrant(r: Request) returns (response: Response)
      requires r.Exchange?
      modifies this`codes, this`grants, this`auditLog
      ensures (View(), response) == StepExchange(config.template, old(View()), r)
    {
      if r.code !in codes {
        return Refused;
      }
      var record := codes[r.code];
      if record.redeemed || r.now >= record.expires {
        return Refused;
      }
      if record.client != r.client {
        return Refused;
      }
      if record.redirectUri != r.redirectUri {
        return Refused;
      }
      codes := codes[r.code := record.(redeemed := true)];
      response := IssueTokens(r.client, record.subject, record.scope, r.now, r.draw);
    }

    method HandleRefreshTokenGrant(r: Request) returns (response: Response)
      requires r.Refresh?
      modifies this`grants, this`auditLog
      ensures (View(), response) == StepRefresh(config.template, old(View()), r)
    {
      if r.token !in grants {
        return Refused;
      }
      var grant := grants[r.token];
      if r.now >= grant.expires || grant.client != r.client {
        return Refused;
      }
      grants := grants - {r.token};
      response := IssueTokens(r.client, grant.subject, grant.scope, r.now, r.draw);
    }

    method HandleToken(r: Request) returns (response: Response)
      requires !r.Authorize?
      modifies this`codes, this`grants, this`auditLog
      ensures (View(), response) == Step(config, old(View()), r)
    {
      if r.Credentials? {
        if r.client == "" {
          return Refused;
        }
        Audit(TokenIssued, r.client, r.client, "");
        return AccessToken(Mint(r.client, r.client, config.template, false));
      }
      var client := Lookup(config.clients, r.client);
      if client.None? {
        return Refused;
      }
      if !Authenticates(client.value, r.secret) {
        Audit(ClientAuthenticationFailed, "(client)", r.client, "");
        return Refused;
      }
      if r.Exchange? {
        response := HandleAuthorizationCodeGrant(r);
      } else {
        response := HandleRefreshTokenGrant(r);
      }
    }
  }
}
