/** What holds of every run of the authorization server. */
module OAuthRuns {
  import opened Outcome
  import opened OAuth

  /** A run from the initial state; the random strings drawn in it never repeat. */
  datatype Run = Run(config: Config, requests: seq<Request>)
  {
    /** The state before request `k`. */
    function At(k: nat): State
      requires k <= |requests|
    {
      if k == 0 then INITIAL else Step(config, At(k - 1), requests[k - 1]).0
    }

    function Answer(k: nat): Response
      requires k < |requests|
    {
      Step(config, At(k), requests[k]).1
    }

    predicate Draws(k: nat, t: string) {
      k < |requests| && requests[k].draw == t
    }

    ghost predicate Fresh() {
      forall i, j | 0 <= i < j < |requests| :: requests[i].draw != requests[j].draw
    }

    /** Request `k` exchanged a code. */
    predicate Exchanged(k: nat) {
      k < |requests| && requests[k].Exchange? && Answer(k).Tokens?
    }

    /** Request `k` exchanged a refresh token. */
    predicate Refreshed(k: nat) {
      k < |requests| && requests[k].Refresh? && Answer(k).Tokens?
    }

    predicate Authorized(k: nat) {
      k < |requests| && Answer(k).CodeIssued?
    }

    predicate Issued(k: nat) {
      k < |requests| && Answer(k).Tokens?
    }
  }

  /** A new server that is given the requests of a run goes through its states and gives its answers. */
  method Serve(config: Config, requests: seq<Request>) returns (server: AuthorizationServer, answers: seq<Response>)
    ensures fresh(server) && server.config == config
    ensures var run := Run(config, requests);
            && server.View() == run.At(|requests|)
            && |answers| == |requests| && forall k | 0 <= k < |requests| :: answers[k] == run.Answer(k)
  {
    hide Step;
    ghost var run := Run(config, requests);
    server := new AuthorizationServer(config);
    answers := [];
    for k := 0 to |requests|
      invariant fresh(server) && server.config == config
      invariant server.View() == run.At(k)
      invariant |answers| == k && forall i | 0 <= i < k :: answers[i] == run.Answer(i)
    {
      var answer: Response;
      if requests[k].Authorize? {
        answer := server.HandleAuthorizePost(requests[k]);
      } else {
        answer := server.HandleToken(requests[k]);
      }
      answers := answers + [answer];
    }
  }

  /** A refused request changes neither dictionary. */
  lemma RefusedChangesNothing(config: Config, s: State, r: Request)
    requires Step(config, s, r).1.Refused?
    ensures Step(config, s, r).0.codes == s.codes && Step(config, s, r).0.grants == s.grants
    ensures s.audit <= Step(config, s, r).0.audit
  {
  }

  // ---------------------------------------------------------------------------
  // Where codes and grants come from
  // ---------------------------------------------------------------------------

  /** The code `t` was issued at `a` and still carries what was authorized there. */
  ghost predicate CodeFrom(run: Run, t: string, code: Code, a: nat) {
    && run.Authorized(a) && run.Draws(a, t) && run.requests[a].Authorize?
    && code.client == run.requests[a].client && code.scope == run.requests[a].scope
    && code.redirectUri == run.requests[a].redirectUri && code.subject == run.config.username
  }

  /** The refresh token `t` was issued at `p`, with the client, subject and scope of its grant. */
  ghost predicate GrantFrom(run: Run, t: string, grant: Grant, p: nat) {
    && run.Issued(p) && run.Draws(p, t)
    && run.Answer(p) == Tokens(UserClaims(run.config.template, grant.client, grant.subject, grant.scope), grant.scope, t)
  }

  ghost predicate Traced(run: Run, k: nat)
    requires k <= |run.requests|
  {
    && (forall t <- run.At(k).codes.Keys :: exists a | 0 <= a < k :: CodeFrom(run, t, run.At(k).codes[t], a))
    && (forall t <- run.At(k).grants.Keys :: exists p | 0 <= p < k :: GrantFrom(run, t, run.At(k).grants[t], p))
  }

  lemma {:induction false} AlwaysTraced(run: Run, k: nat)
    requires k <= |run.requests|
    ensures Traced(run, k)
  {
    if k > 0 {
      AlwaysTraced(run, k - 1);
      forall t | t in run.At(k).codes
        ensures exists a | 0 <= a < k :: CodeFrom(run, t, run.At(k).codes[t], a)
      {
        CodeTraced(run, k, t);
      }
      forall t | t in run.At(k).grants
        ensures exists p | 0 <= p < k :: GrantFrom(run, t, run.At(k).grants[t], p)
      {
        GrantTraced(run, k, t);
      }
    }
  }

  /** A code present after a request was issued by it, or was present with the same data. */
  lemma CodesChange(config: Config, s: State, r: Request, t: string)
    requires t in Step(config, s, r).0.codes
    ensures var (s', a) := Step(config, s, r);
            || (r.Authorize? && a.CodeIssued? && t == r.draw
                && s'.codes[t] == Code(r.client, r.redirectUri, r.scope, config.username, r.now + CODE_TTL, false))
            || (t in s.codes && (s'.codes[t] == s.codes[t] || s'.codes[t] == s.codes[t].(redeemed := true)))
  {
  }

  lemma CodeTraced(run: Run, k: nat, t: string)
    requires 0 < k <= |run.requests| && Traced(run, k - 1) && t in run.At(k).codes
    ensures exists a | 0 <= a < k :: CodeFrom(run, t, run.At(k).codes[t], a)
  {
    hide Step;
    var s, r := run.At(k - 1), run.requests[k - 1];
    CodesChange(run.config, s, r, t);
    if t in s.codes && (run.At(k).codes[t] == s.codes[t] || run.At(k).codes[t] == s.codes[t].(redeemed := true)) {
      var a :| 0 <= a < k - 1 && CodeFrom(run, t, s.codes[t], a);
      assert CodeFrom(run, t, run.At(k).codes[t], a);
    } else {
      assert CodeFrom(run, t, run.At(k).codes[t], k - 1);
    }
  }

  /** A grant present after a request was issued by it, or was present as it is. */
  lemma GrantOrigin(config: Config, s: State, r: Request, t: string)
    requires t in Step(config, s, r).0.grants
    ensures var (s', a) := Step(config, s, r);
            var g := s'.grants[t];
            || (t == r.draw && a == Tokens(UserClaims(config.template, g.client, g.subject, g.scope), g.scope, t))
            || (t in s.grants && g == s.grants[t])
  {
  }

  lemma GrantTraced(run: Run, k: nat, t: string)
    requires 0 < k <= |run.requests| && Traced(run, k - 1) && t in run.At(k).grants
    ensures exists p | 0 <= p < k :: GrantFrom(run, t, run.At(k).grants[t], p)
  {
    hide Step;
    var s, grant := run.At(k - 1), run.At(k).grants[t];
    GrantOrigin(run.config, s, run.requests[k - 1], t);
    if t in s.grants && grant == s.grants[t] {
      var p :| 0 <= p < k - 1 && GrantFrom(run, t, s.grants[t], p);
      assert GrantFrom(run, t, grant, p);
    } else {
      assert GrantFrom(run, t, grant, k - 1);
    }
  }

  /** A string is in neither dictionary before it is drawn. */
  lemma NotYetDrawn(run: Run, a: nat, j: nat)
    requires run.Fresh() && j <= a < |run.requests|
    ensures run.requests[a].draw !in run.At(j).codes && run.requests[a].draw !in run.At(j).grants
  {
    AlwaysTraced(run, j);
  }

  // ---------------------------------------------------------------------------
  // Conservation and single use
  // ---------------------------------------------------------------------------

  function Exchanges(run: Run, k: nat): nat
    requires k <= |run.requests|
  {
    if k == 0 then 0 else Exchanges(run, k - 1) + if run.Exchanged(k - 1) then 1 else 0
  }

  lemma AddedGrant(m: map<string, Grant>, draw: string, g: Grant)
    requires draw !in m
    ensures |m[draw := g]| == |m| + 1
  {
    assert m[draw := g].Keys == m.Keys + {draw};
  }

  lemma RotatedGrant(m: map<string, Grant>, token: string, draw: string, g: Grant)
    requires token in m && draw !in m
    ensures |(m - {token})[draw := g]| == |m|
  {
    assert (m - {token}).Keys == m.Keys - {token};
    AddedGrant(m - {token}, draw, g);
  }

  /** Only an exchange or a refresh changes the grants: it adds one, or replaces one. */
  lemma GrantsChange(config: Config, s: State, r: Request)
    ensures var (s', a) := Step(config, s, r);
            if a.Tokens? then
              && (r.Exchange? || (r.Refresh? && r.token in s.grants))
              && s'.grants == (if r.Exchange? then s.grants else s.grants - {r.token})[r.draw := NewGrant(r, a)]
            else s'.grants == s.grants
  {
  }

  function NewGrant(r: Request, a: Response): Grant
    requires a.Tokens? && (r.Exchange? || r.Refresh?)
  {
    Grant(a.access.client, a.scope, a.access.subject, r.now + REFRESH_TTL)
  }

  /** The stored refresh grants are as many as the codes exchanged so far. */
  lemma {:induction false} GrantsConserved(run: Run, k: nat)
    requires run.Fresh() && k <= |run.requests|
    ensures |run.At(k).grants| == Exchanges(run, k)
  {
    hide Step;
    if k > 0 {
      GrantsConserved(run, k - 1);
      NotYetDrawn(run, k - 1, k - 1);
      GrantsCounted(run.config, run.At(k - 1), run.requests[k - 1]);
    }
  }

  lemma GrantsCounted(config: Config, s: State, r: Request)
    requires r.draw !in s.grants
    ensures var (s', a) := Step(config, s, r);
            |s'.grants| == |s.grants| + if r.Exchange? && a.Tokens? then 1 else 0
  {
    GrantsChange(config, s, r);
    var (s', a) := Step(config, s, r);
    if a.Tokens? {
      if r.Exchange? {
        AddedGrant(s.grants, r.draw, NewGrant(r, a));
      } else {
        RotatedGrant(s.grants, r.token, r.draw, NewGrant(r, a));
      }
    }
  }

  lemma TokenDrawn(run: Run, k: nat, t: string) returns (p: nat)
    requires k <= |run.requests| && t in run.At(k).grants
    ensures p < k && run.Draws(p, t)
  {
    AlwaysTraced(run, k);
    p :| 0 <= p < k && GrantFrom(run, t, run.At(k).grants[t], p);
  }

  /** A refresh token that has been drawn and is not stored never comes back. */
  lemma {:induction false} GoneStaysGone(run: Run, t: string, p: nat, j: nat, k: nat)
    requires run.Fresh() && p < j <= k <= |run.requests| && run.Draws(p, t) && t !in run.At(j).grants
    ensures t !in run.At(k).grants
  {
    if j < k {
      GoneStaysGone(run, t, p, j, k - 1);
      assert run.requests[p].draw != run.requests[k - 1].draw;
    }
  }

  /** Each refresh token is exchanged at most once. */
  lemma RefreshOnce(run: Run, i: nat, j: nat)
    requires run.Fresh() && i < j && run.Refreshed(i) && run.Refreshed(j)
    ensures run.requests[i].token != run.requests[j].token
  {
    var t := run.requests[i].token;
    GrantsChange(run.config, run.At(i), run.requests[i]);
    GrantsChange(run.config, run.At(j), run.requests[j]);
    var p := TokenDrawn(run, i, t);
    assert run.requests[p].draw != run.requests[i].draw;
    GoneStaysGone(run, t, p, i + 1, j);
  }

  /** What becomes of one stored code. */
  lemma CodeStep(config: Config, s: State, r: Request, t: string)
    requires t in s.codes && t != r.draw
    ensures var (s', a) := Step(config, s, r);
            t in s'.codes && s'.codes[t] ==
              if r.Exchange? && a.Tokens? && r.code == t then s.codes[t].(redeemed := true) else s.codes[t]
  {
  }

  /** A redeemed code stays redeemed. */
  lemma {:induction false} RedeemedStays(run: Run, t: string, j: nat, k: nat)
    requires run.Fresh() && j <= k <= |run.requests|
    requires t in run.At(j).codes && run.At(j).codes[t].redeemed
    ensures t in run.At(k).codes && run.At(k).codes[t].redeemed
  {
    hide Step;
    if j < k {
      RedeemedStays(run, t, j, k - 1);
      NotYetDrawn(run, k - 1, k - 1);
      CodeStep(run.config, run.At(k - 1), run.requests[k - 1], t);
    }
  }

  /** Each authorization code yields at most one initial token pair. */
  lemma ExchangeOnce(run: Run, i: nat, j: nat)
    requires run.Fresh() && i < j && run.Exchanged(i) && run.Exchanged(j)
    ensures run.requests[i].code != run.requests[j].code
  {
    RedeemedStays(run, run.requests[i].code, i + 1, j);
  }

  // ---------------------------------------------------------------------------
  // One origin for every token
  // ---------------------------------------------------------------------------

  /** What an exchange and a refresh find, and what they answer. */
  lemma IssuedFrom(config: Config, s: State, r: Request)
    requires Step(config, s, r).1.Tokens?
    ensures var (s', a) := Step(config, s, r);
            && a.access.client == r.client && a.refresh == r.draw
            && a.access == UserClaims(config.template, r.client, a.access.subject, a.scope)
            && (r.Exchange? ==>
                  && r.code in s.codes && !s.codes[r.code].redeemed && s.codes[r.code].client == r.client
                  && a.access.subject == s.codes[r.code].subject && a.scope == s.codes[r.code].scope
                  && r.code in s'.codes && s'.codes[r.code].redeemed)
            && (!r.Exchange? ==>
                  && r.Refresh? && r.token in s.grants && s.grants[r.token].client == r.client
                  && a.access.subject == s.grants[r.token].subject && a.scope == s.grants[r.token].scope)
  {
  }

  /** The request at which the grant behind request `k` was issued. */
  ghost function Parent(run: Run, k: nat): (p: nat)
    requires run.Refreshed(k)
    ensures p < k && run.requests[k].token in run.At(k).grants
    ensures GrantFrom(run, run.requests[k].token, run.At(k).grants[run.requests[k].token], p)
  {
    AlwaysTraced(run, k);
    IssuedFrom(run.config, run.At(k), run.requests[k]);
    var t := run.requests[k].token;
    var p :| 0 <= p < k && GrantFrom(run, t, run.At(k).grants[t], p);
    p
  }

  /** The authorization whose code request `k` exchanged. */
  ghost function Authorization(run: Run, k: nat): (a: nat)
    requires run.Exchanged(k)
    ensures a < k && run.requests[k].code in run.At(k).codes
    ensures CodeFrom(run, run.requests[k].code, run.At(k).codes[run.requests[k].code], a)
  {
    AlwaysTraced(run, k);
    IssuedFrom(run.config, run.At(k), run.requests[k]);
    var t := run.requests[k].code;
    var a :| 0 <= a < k && CodeFrom(run, t, run.At(k).codes[t], a);
    a
  }

  /** The authorization at the root of the refresh chain that ends in request `k`. */
  ghost function Origin(run: Run, k: nat): nat
    requires run.Issued(k)
  {
    IssuedFrom(run.config, run.At(k), run.requests[k]);
    if run.requests[k].Exchange? then Authorization(run, k) else Origin(run, Parent(run, k))
  }

  /**
   Every token pair carries the client, subject and scope of the one authorization it goes back
   to, the access token in its claims and the answer beside it.
   */
  lemma {:induction false} OriginCarries(run: Run, k: nat)
    requires run.Issued(k)
    ensures var a := Origin(run, k);
            && a < k && run.Authorized(a) && run.requests[a].Authorize?
            && run.requests[k].client == run.requests[a].client
            && run.Answer(k) == Tokens(UserClaims(run.config.template, run.requests[a].client, run.config.username, run.requests[a].scope),
                                       run.requests[a].scope, run.requests[k].draw)
  {
    IssuedFrom(run.config, run.At(k), run.requests[k]);
    if !run.requests[k].Exchange? {
      OriginCarries(run, Parent(run, k));
    }
  }

  /** The access token issued at `k` claims the scope that was authorized for it. */
  ghost predicate ClaimsAuthorizedScope(run: Run, k: nat)
    requires run.Issued(k)
  {
    var a := Origin(run, k);
    a < |run.requests| && run.requests[a].Authorize? && run.Answer(k).access.scope == run.requests[a].scope
  }

  /**
   Along every refresh chain the access token names the authorized client and user, and claims
   the authorized scope exactly when that scope is not empty; an empty one becomes the template's.
   */
  lemma AccessTokenCarries(run: Run, k: nat)
    requires run.Issued(k)
    ensures var (a, access) := (Origin(run, k), run.Answer(k).access);
            && a < k && run.requests[a].Authorize?
            && access.client == run.requests[a].client && access.azp == Some(run.requests[a].client)
            && access.subject == run.config.username
            && (ClaimsAuthorizedScope(run, k) <==> run.requests[a].scope != "")
            && (run.requests[a].scope == "" ==> access.scope == run.config.template)
  {
    OriginCarries(run, k);
  }

  /** The exchange at the root of a refresh chain. */
  lemma {:induction false} RootExchange(run: Run, k: nat) returns (j: nat)
    requires run.Issued(k)
    ensures j <= k && run.Exchanged(j) && Origin(run, k) == Authorization(run, j)
  {
    IssuedFrom(run.config, run.At(k), run.requests[k]);
    if run.requests[k].Exchange? {
      j := k;
    } else {
      j := RootExchange(run, Parent(run, k));
    }
  }

  /** The access tokens of a run all claim what was authorized exactly if no code exchanged had an empty scope. */
  lemma ScopesRightExactly(run: Run)
    ensures (forall k: nat | run.Issued(k) :: ClaimsAuthorizedScope(run, k)) <==>
            (forall j: nat | run.Exchanged(j) ::
               run.requests[j].code in run.At(j).codes && run.At(j).codes[run.requests[j].code].scope != "")
  {
    hide Step;
    forall j: nat | run.Exchanged(j)
      ensures run.Issued(j) && run.requests[j].code in run.At(j).codes
      ensures ClaimsAuthorizedScope(run, j) <==> run.At(j).codes[run.requests[j].code].scope != ""
    {
      AccessTokenCarries(run, j);
      assert Origin(run, j) == Authorization(run, j);
    }
    forall k: nat | run.Issued(k)
      ensures exists j: nat :: run.Exchanged(j) && (ClaimsAuthorizedScope(run, k) <==> ClaimsAuthorizedScope(run, j))
    {
      var j := RootExchange(run, k);
      AccessTokenCarries(run, k);
      AccessTokenCarries(run, j);
    }
  }

  /** A user who signs in for a client that asks for no scope gives it the template's five. */
  lemma EmptyScopeWitness()
    ensures var config := Config([Client("c", None, ["u"])], "user", "word", TEMPLATE_SCOPE);
            var run := Run(config, [Authorize("c", "u", "code", "", "user", "word", 0.0, "x"),
                                    Exchange("c", None, "x", "u", 1.0, "y")]);
            && run.Fresh() && run.Issued(1)
            && run.Answer(1).scope == "" && run.Answer(1).access.scope == TEMPLATE_SCOPE
  {
    var config := Config([Client("c", None, ["u"])], "user", "word", TEMPLATE_SCOPE);
    var first := Authorize("c", "u", "code", "", "user", "word", 0.0, "x");
    var run := Run(config, [first, Exchange("c", None, "x", "u", 1.0, "y")]);
    assert run.At(0) == INITIAL;
    assert run.At(1) == Step(config, INITIAL, first).0;
  }

  /** Once a token goes back to an authorization, that authorization's code is redeemed for good. */
  lemma {:induction false} OriginRedeemed(run: Run, p: nat, k: nat)
    requires run.Fresh() && run.Issued(p) && p < k <= |run.requests|
    ensures Origin(run, p) < |run.requests|
    ensures var t := run.requests[Origin(run, p)].draw;
            t in run.At(k).codes && run.At(k).codes[t].redeemed
    decreases p
  {
    OriginCarries(run, p);
    IssuedFrom(run.config, run.At(p), run.requests[p]);
    if run.requests[p].Exchange? {
      RedeemedStays(run, run.requests[p].code, p + 1, k);
    } else {
      OriginRedeemed(run, Parent(run, p), k);
    }
  }

  /** A grant stored after request `k - 1` was stored before it, unless that request issued it. */
  lemma StillStored(run: Run, k: nat, p: nat)
    requires run.Fresh() && 0 < k <= |run.requests| && p < k - 1 && run.requests[p].draw in run.At(k).grants
    ensures run.requests[p].draw in run.At(k - 1).grants
    ensures run.Refreshed(k - 1) ==> run.requests[p].draw != run.requests[k - 1].token
  {
    GrantsChange(run.config, run.At(k - 1), run.requests[k - 1]);
    assert run.requests[p].draw != run.requests[k - 1].draw;
  }

  /** At any time, each authorization stands behind at most one stored refresh grant. */
  lemma {:induction false} OneGrantPerAuthorization(run: Run, k: nat, p: nat, q: nat)
    requires run.Fresh() && k <= |run.requests| && p < q < k && run.Issued(p) && run.Issued(q)
    requires run.requests[p].draw in run.At(k).grants && run.requests[q].draw in run.At(k).grants
    ensures Origin(run, p) != Origin(run, q)
    decreases k
  {
    hide Step;
    StillStored(run, k, p);
    if q < k - 1 {
      StillStored(run, k, q);
      OneGrantPerAuthorization(run, k - 1, p, q);
    } else {
      IssuedFrom(run.config, run.At(q), run.requests[q]);
      if run.requests[q].Exchange? {
        OriginRedeemed(run, p, q);
      } else {
        var parent := Parent(run, q);
        if p < parent {
          OneGrantPerAuthorization(run, q, p, parent);
        } else {
          OneGrantPerAuthorization(run, q, parent, p);
        }
      }
    }
  }

  // ---------------------------------------------------------------------------
  // The audit trail
  // ---------------------------------------------------------------------------

  function TokenEntries(audit: seq<Entry>): seq<Entry> {
    if audit == [] then []
    else TokenEntries(audit[..|audit| - 1]) + if audit[|audit| - 1].event.TokenIssued? then [audit[|audit| - 1]] else []
  }

  /** The entry that an answer calls for, if it hands out a token. */
  function Called(a: Response): seq<Entry> {
    match a
    case Tokens(access, scope, _) => [Entry(TokenIssued, access.subject, access.client, scope)]
    case AccessToken(access) => [Entry(TokenIssued, access.subject, access.client, "")]
    case _ => []
  }

  /** The entries that the tokens handed out before request `k` call for, in order. */
  function TokensHandedOut(run: Run, k: nat): seq<Entry>
    requires k <= |run.requests|
  {
    if k == 0 then [] else TokensHandedOut(run, k - 1) + Called(run.Answer(k - 1))
  }

  /** The audit trail has exactly one entry per token handed out, in order. */
  ghost predicate AuditTallies(run: Run, k: nat)
    requires k <= |run.requests|
  {
    TokenEntries(run.At(k).audit) == TokensHandedOut(run, k)
  }

  lemma AuditStart(run: Run, k: nat)
    requires k == 0
    ensures AuditTallies(run, k)
  {
  }

  lemma AuditAfter(run: Run, k: nat)
    requires 0 < k <= |run.requests| && AuditTallies(run, k - 1)
    ensures AuditTallies(run, k)
  {
    AuditGrows(run.config, run.At(k - 1), run.requests[k - 1]);
  }

  /** At any time the audit trail tells each token's subject and client, once. */
  lemma {:induction false} AuditMatchesTokens(run: Run, k: nat)
    requires k <= |run.requests|
    ensures AuditTallies(run, k)
  {
    if k == 0 {
      AuditStart(run, k);
    } else {
      AuditMatchesTokens(run, k - 1);
      AuditAfter(run, k);
    }
  }

  lemma TokenEntriesAppend(audit: seq<Entry>, e: Entry)
    ensures TokenEntries(audit + [e]) == TokenEntries(audit) + if e.event.TokenIssued? then [e] else []
  {
    assert (audit + [e])[..|audit|] == audit;
  }

  /** A request logs at most one entry, and a token entry exactly when it hands out a token. */
  lemma AuditStep(config: Config, s: State, r: Request)
    ensures var (s', a) := Step(config, s, r);
            || (s'.audit == s.audit && Called(a) == [])
            || (exists e: Entry :: s'.audit == s.audit + [e] && Called(a) == if e.event.TokenIssued? then [e] else [])
  {
  }

  lemma AuditGrows(config: Config, s: State, r: Request)
    ensures var (s', a) := Step(config, s, r);
            TokenEntries(s'.audit) == TokenEntries(s.audit) + Called(a)
  {
    AuditStep(config, s, r);
    var (s', a) := Step(config, s, r);
    if e: Entry :| s'.audit == s.audit + [e] && Called(a) == if e.event.TokenIssued? then [e] else [] {
      TokenEntriesAppend(s.audit, e);
    }
  }
}
