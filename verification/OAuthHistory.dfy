/**
 The server against its history: which token requests succeed, said only in terms of the
 requests that came before and how they were answered.
 */
module OAuthHistory {
  import opened Outcome
  import opened OAuth
  import opened OAuthRuns

  ghost predicate UsedCode(run: Run, t: string, k: nat) {
    exists j | 0 <= j < k :: run.Exchanged(j) && run.requests[j].code == t
  }

  ghost predicate UsedToken(run: Run, t: string, k: nat) {
    exists j | 0 <= j < k :: run.Refreshed(j) && run.requests[j].token == t
  }

  /** Client `i` is the first that is registered under `id`. */
  predicate FirstClient(clients: seq<Client>, id: string, i: nat) {
    i < |clients| && clients[i].id == id && forall j | 0 <= j < i :: clients[j].id != id
  }

  /**
   The client that request `k` names is registered and shows its secret; one without a secret,
   or with an empty one, shows none or an empty one.
   */
  ghost predicate ClientAuthentic(run: Run, k: nat)
    requires k < |run.requests| && (run.requests[k].Exchange? || run.requests[k].Refresh?)
  {
    exists i: nat | FirstClient(run.config.clients, run.requests[k].client, i) ::
      var (shown, kept) := (run.requests[k].secret, run.config.clients[i].secret);
      if kept == None || kept == Some("") then shown == None || shown == Some("") else shown == kept
  }

  lemma {:induction false} LookupFinds(clients: seq<Client>, id: string)
    ensures Lookup(clients, id).None? ==> forall i: nat :: !FirstClient(clients, id, i)
    ensures Lookup(clients, id).Some? ==>
              exists i: nat :: FirstClient(clients, id, i) && clients[i] == Lookup(clients, id).value
  {
    if clients != [] {
      if clients[0].id == id {
        assert FirstClient(clients, id, 0);
      } else {
        LookupFinds(clients[1..], id);
        if Lookup(clients, id).Some? {
          var i: nat :| FirstClient(clients[1..], id, i) && clients[1..][i] == Lookup(clients, id).value;
          assert forall j | 1 <= j <= i :: clients[j] == clients[1..][j - 1];
          assert FirstClient(clients, id, i + 1);
        } else {
          forall i: nat
            ensures !FirstClient(clients, id, i)
          {
            if FirstClient(clients, id, i) {
              assert forall j | 0 <= j < i - 1 :: clients[1..][j] == clients[j + 1];
              assert FirstClient(clients[1..], id, i - 1);
            }
          }
        }
      }
    }
  }

  lemma FirstIsOne(clients: seq<Client>, id: string, i: nat, j: nat)
    requires FirstClient(clients, id, i) && FirstClient(clients, id, j)
    ensures i == j
  {
  }

  lemma ClientAuthenticated(run: Run, k: nat)
    requires k < |run.requests| && (run.requests[k].Exchange? || run.requests[k].Refresh?)
    ensures ClientAuthentic(run, k) <==>
              var client := Lookup(run.config.clients, run.requests[k].client);
              client.Some? && Authenticates(client.value, run.requests[k].secret)
  {
    var clients, id := run.config.clients, run.requests[k].client;
    LookupFinds(clients, id);
    if Lookup(clients, id).Some? {
      var i: nat :| FirstClient(clients, id, i) && clients[i] == Lookup(clients, id).value;
      forall j: nat | FirstClient(clients, id, j)
        ensures j == i
      {
        FirstIsOne(clients, id, i, j);
      }
    }
  }

  /** Authorization `a` entitles the exchange at `k`: same code, client and redirect URI, in time. */
  ghost predicate Entitles(run: Run, a: nat, k: nat)
    requires k < |run.requests| && run.requests[k].Exchange?
  {
    var r := run.requests[k];
    && run.Authorized(a) && run.requests[a].Authorize? && run.Draws(a, r.code)
    && run.requests[a].client == r.client && run.requests[a].redirectUri == r.redirectUri
    && r.now < run.requests[a].now + 60.0
  }

  /** The tokens issued at `p` entitle the refresh at `k`. */
  ghost predicate Renews(run: Run, p: nat, k: nat)
    requires k < |run.requests| && run.requests[k].Refresh?
  {
    var r := run.requests[k];
    && run.Issued(p) && (run.requests[p].Exchange? || run.requests[p].Refresh?) && run.Draws(p, r.token)
    && run.requests[p].client == r.client && r.now < run.requests[p].now + 28800.0
  }

  // ---------------------------------------------------------------------------
  // One step
  // ---------------------------------------------------------------------------

  /** What becomes of one refresh token. */
  lemma GrantStep(config: Config, s: State, r: Request, t: string)
    requires t != r.draw
    ensures var (s', a) := Step(config, s, r);
            && (t in s'.grants <==> t in s.grants && !(r.Refresh? && a.Tokens? && r.token == t))
            && (t in s'.grants ==> s'.grants[t] == s.grants[t])
  {
  }

  lemma ExchangeStep(config: Config, s: State, r: Request)
    requires r.Exchange?
    ensures Step(config, s, r).1.Tokens? <==>
              && Lookup(config.clients, r.client).Some? && Authenticates(Lookup(config.clients, r.client).value, r.secret)
              && r.code in s.codes && !s.codes[r.code].redeemed && r.now < s.codes[r.code].expires
              && s.codes[r.code].client == r.client && s.codes[r.code].redirectUri == r.redirectUri
  {
  }

  lemma RefreshStep(config: Config, s: State, r: Request)
    requires r.Refresh?
    ensures Step(config, s, r).1.Tokens? <==>
              && Lookup(config.clients, r.client).Some? && Authenticates(Lookup(config.clients, r.client).value, r.secret)
              && r.token in s.grants && r.now < s.grants[r.token].expires && s.grants[r.token].client == r.client
  {
  }

  lemma AuthorizeStep(config: Config, s: State, r: Request)
    requires Step(config, s, r).1.CodeIssued?
    ensures r.Authorize? && Step(config, s, r).0.codes ==
              s.codes[r.draw := Code(r.client, r.redirectUri, r.scope, config.username, r.now + CODE_TTL, false)]
  {
  }

  // ---------------------------------------------------------------------------
  // Every run
  // ---------------------------------------------------------------------------

  lemma NotYetUsed(run: Run, a: nat)
    requires run.Fresh() && a < |run.requests|
    ensures !UsedCode(run, run.requests[a].draw, a + 1) && !UsedToken(run, run.requests[a].draw, a + 1)
  {
    forall j | 0 <= j < a + 1
      ensures run.Exchanged(j) ==> run.requests[j].code != run.requests[a].draw
      ensures run.Refreshed(j) ==> run.requests[j].token != run.requests[a].draw
    {
      NotYetDrawn(run, a, j);
      if run.Exchanged(j) {
        ExchangeStep(run.config, run.At(j), run.requests[j]);
      } else if run.Refreshed(j) {
        RefreshStep(run.config, run.At(j), run.requests[j]);
      }
    }
  }

  /** The code issued at `a` is stored for good, as authorized, and redeemed once it has been used. */
  lemma {:induction false} CodeStored(run: Run, a: nat, k: nat)
    requires run.Fresh() && run.Authorized(a) && a < k <= |run.requests|
    ensures run.requests[a].Authorize?
    ensures var (r, codes) := (run.requests[a], run.At(k).codes);
            r.draw in codes && codes[r.draw] ==
              Code(r.client, r.redirectUri, r.scope, run.config.username, r.now + CODE_TTL, UsedCode(run, r.draw, k))
  {
    hide Step;
    var t := run.requests[a].draw;
    if k == a + 1 {
      AuthorizeStep(run.config, run.At(a), run.requests[a]);
      NotYetUsed(run, a);
    } else {
      CodeStored(run, a, k - 1);
      assert run.requests[a].draw != run.requests[k - 1].draw;
      CodeStep(run.config, run.At(k - 1), run.requests[k - 1], t);
      UsedCodeStep(run, t, k);
    }
  }

  lemma UsedCodeStep(run: Run, t: string, k: nat)
    requires 0 < k <= |run.requests|
    ensures UsedCode(run, t, k) <==> UsedCode(run, t, k - 1) || (run.Exchanged(k - 1) && run.requests[k - 1].code == t)
  {
    if UsedCode(run, t, k - 1) {
      var j :| 0 <= j < k - 1 && run.Exchanged(j) && run.requests[j].code == t;
      assert 0 <= j < k;
    }
  }

  lemma UsedTokenStep(run: Run, t: string, k: nat)
    requires 0 < k <= |run.requests|
    ensures UsedToken(run, t, k) <==> UsedToken(run, t, k - 1) || (run.Refreshed(k - 1) && run.requests[k - 1].token == t)
  {
    if UsedToken(run, t, k - 1) {
      var j :| 0 <= j < k - 1 && run.Refreshed(j) && run.requests[j].token == t;
      assert 0 <= j < k;
    }
  }

  /** The refresh token issued at `p` is stored, as issued, exactly until it is used. */
  lemma {:induction false} GrantStored(run: Run, p: nat, k: nat)
    requires run.Fresh() && run.Issued(p) && p < k <= |run.requests|
    ensures run.requests[p].Exchange? || run.requests[p].Refresh?
    ensures var (t, grants) := (run.requests[p].draw, run.At(k).grants);
            && (t in grants <==> !UsedToken(run, t, k))
            && (t in grants ==> grants[t] == NewGrant(run.requests[p], run.Answer(p)))
  {
    hide Step;
    var t := run.requests[p].draw;
    if k == p + 1 {
      GrantsChange(run.config, run.At(p), run.requests[p]);
      NotYetUsed(run, p);
    } else {
      GrantStored(run, p, k - 1);
      assert run.requests[p].draw != run.requests[k - 1].draw;
      GrantStep(run.config, run.At(k - 1), run.requests[k - 1], t);
      UsedTokenStep(run, t, k);
    }
  }

  /**
   A code exchange succeeds exactly when an authentic client presents an unused code that an
   earlier authorization gave it, for the same redirect URI, within the code's lifetime.
   */
  lemma ExchangeExactly(run: Run, k: nat)
    requires run.Fresh() && k < |run.requests| && run.requests[k].Exchange?
    ensures run.Exchanged(k) <==>
              && ClientAuthentic(run, k)
              && !UsedCode(run, run.requests[k].code, k)
              && exists a | 0 <= a < k :: Entitles(run, a, k)
  {
    ClientAuthenticated(run, k);
    ExchangeStep(run.config, run.At(k), run.requests[k]);
    if run.Exchanged(k) {
      var a := Authorization(run, k);
      CodeStored(run, a, k);
      assert Entitles(run, a, k);
    }
    forall a | 0 <= a < k && Entitles(run, a, k)
      ensures ClientAuthentic(run, k) && !UsedCode(run, run.requests[k].code, k) ==> run.Exchanged(k)
    {
      CodeStored(run, a, k);
    }
  }

  /**
   A refresh succeeds exactly when an authentic client presents an unused refresh token that
   was issued to it, within the token's lifetime.
   */
  lemma RefreshExactly(run: Run, k: nat)
    requires run.Fresh() && k < |run.requests| && run.requests[k].Refresh?
    ensures run.Refreshed(k) <==>
              && ClientAuthentic(run, k)
              && !UsedToken(run, run.requests[k].token, k)
              && exists p | 0 <= p < k :: Renews(run, p, k)
  {
    ClientAuthenticated(run, k);
    RefreshStep(run.config, run.At(k), run.requests[k]);
    if run.Refreshed(k) {
      var p := Parent(run, k);
      GrantStored(run, p, k);
      IssuedFrom(run.config, run.At(p), run.requests[p]);
      assert Renews(run, p, k);
    }
    forall p | 0 <= p < k && Renews(run, p, k)
      ensures ClientAuthentic(run, k) && !UsedToken(run, run.requests[k].token, k) ==> run.Refreshed(k)
    {
      GrantStored(run, p, k);
      IssuedFrom(run.config, run.At(p), run.requests[p]);
    }
  }

  // ---------------------------------------------------------------------------
  // Who is let in, and what is logged
  // ---------------------------------------------------------------------------

  /** Request `k` asks for a code, for a registered client and one of its redirect URIs. */
  ghost predicate WellAsked(run: Run, k: nat)
    requires k < |run.requests|
  {
    var (r, clients) := (run.requests[k], run.config.clients);
    && r.Authorize? && r.responseType == "code" && r.redirectUri != ""
    && exists i: nat | FirstClient(clients, r.client, i) :: r.redirectUri in clients[i].redirectUris
  }

  lemma WellAskedIsValid(run: Run, k: nat)
    requires k < |run.requests| && run.requests[k].Authorize?
    ensures WellAsked(run, k) <==> ValidRequest(run.config, run.requests[k])
  {
    var clients, id := run.config.clients, run.requests[k].client;
    LookupFinds(clients, id);
    if Lookup(clients, id).Some? {
      var i: nat :| FirstClient(clients, id, i) && clients[i] == Lookup(clients, id).value;
      forall j: nat | FirstClient(clients, id, j)
        ensures j == i
      {
        FirstIsOne(clients, id, i, j);
      }
    }
  }

  /** The operator's own username and password, both of them. */
  predicate OperatorShown(run: Run, k: nat)
    requires k < |run.requests| && run.requests[k].Authorize?
  {
    run.requests[k].username == run.config.username && run.requests[k].password == run.config.password
  }

  lemma AuthorizeAnswer(run: Run, k: nat)
    requires k < |run.requests| && run.requests[k].Authorize?
    ensures run.Authorized(k) <==> ValidRequest(run.config, run.requests[k]) && OperatorShown(run, k)
    ensures run.Authorized(k) ==> run.Answer(k) == CodeIssued(run.requests[k].draw)
  {
    hide ValidRequest;
  }

  /**
   A request is answered with a code exactly when it asks well for one, for a registered client and
   one of its redirect URIs, and shows the operator's username and password.
   */
  lemma AuthorizedExactly(run: Run, k: nat)
    requires k < |run.requests|
    ensures run.Authorized(k) <==> WellAsked(run, k) && OperatorShown(run, k)
    ensures run.Authorized(k) ==> run.Answer(k) == CodeIssued(run.requests[k].draw)
  {
    hide ValidRequest, Step;
    if run.requests[k].Authorize? {
      WellAskedIsValid(run, k);
      AuthorizeAnswer(run, k);
    } else if run.Authorized(k) {
      AuthorizeStep(run.config, run.At(k), run.requests[k]);
    }
  }

  /** What the audit trail gains from an authorization request. */
  lemma AuthorizationLogged(run: Run, k: nat)
    requires k < |run.requests| && run.requests[k].Authorize?
    ensures var r := run.requests[k];
            run.At(k + 1).audit == run.At(k).audit +
              if !WellAsked(run, k) then []
              else if OperatorShown(run, k) then [Entry(AuthorizationGranted, run.config.username, r.client, r.scope)]
              else [Entry(AuthorizationDenied, if r.username == "" then "(anonymous)" else r.username, r.client, "")]
  {
    hide ValidRequest;
    WellAskedIsValid(run, k);
    assert run.At(k).audit + [] == run.At(k).audit;
  }

  /** What it gains from a token request: a failure of a registered client, or the token. */
  lemma TokenRequestLogged(run: Run, k: nat)
    requires k < |run.requests| && (run.requests[k].Exchange? || run.requests[k].Refresh?)
    ensures var r := run.requests[k];
            run.At(k + 1).audit == run.At(k).audit +
              if !(exists i: nat :: FirstClient(run.config.clients, r.client, i)) then []
              else if !ClientAuthentic(run, k) then [Entry(ClientAuthenticationFailed, "(client)", r.client, "")]
              else if run.Issued(k) then [Entry(TokenIssued, run.Answer(k).access.subject, r.client, run.Answer(k).scope)]
              else []
  {
    hide Lookup, Authenticates;
    LookupFinds(run.config.clients, run.requests[k].client);
    ClientAuthenticated(run, k);
    assert run.At(k).audit + [] == run.At(k).audit;
  }

  /** A client that asks on its own behalf gets a token of its own, and no refresh token. */
  lemma CredentialsExactly(run: Run, k: nat)
    requires k < |run.requests| && run.requests[k].Credentials?
    ensures var client := run.requests[k].client;
            && run.Answer(k) == (if client == "" then Refused else AccessToken(Claims(client, None, client, run.config.template)))
            && run.At(k + 1).codes == run.At(k).codes && run.At(k + 1).grants == run.At(k).grants
            && run.At(k + 1).audit == run.At(k).audit + if client == "" then [] else [Entry(TokenIssued, client, client, "")]
  {
  }
}
