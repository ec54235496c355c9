/** From an account catalogue to the backends a gateway forwards through, and to the one that carries a request.
    crates/inference-gateway/src/pool.rs and the request side of gateway/upstream.rs. */
module Pool {
  import opened Text
  import Models

  // ---------------------------------------------------------------- what is configured

  datatype Protocol = AnthropicMessages | OpenAiResponses | OpenAiChat | GeminiGenerateContent | TypesafeSystemOne

  const INGRESS: seq<Protocol> :=
    [AnthropicMessages, OpenAiResponses, OpenAiChat, GeminiGenerateContent, TypesafeSystemOne]

  const BROKERED: seq<Protocol> := [AnthropicMessages, OpenAiResponses, OpenAiChat, GeminiGenerateContent]

  datatype Declared = Verified(value: bool) | Unverified

  datatype Support = Support(protocol: Protocol, baseUrl: string, toolCalls: Declared)

  datatype Provider = Provider(name: string, protocols: seq<Support>, credentialEnv: seq<string>)

  datatype SecretRef = Environment(variable: string) | OsCredential(service: string, account: string)

  datatype Account = Account(
    brokered: bool, provider: Option<string>, credential: Option<SecretRef>, models: Option<seq<string>>)

  datatype Broker = Broker(provider: string, baseUrl: string, key: string, models: seq<string>)

  /** What the outside answers: the secret stores, which base URLs are absolute http ones, which keys can stand in a
      header, who is marked free, and which accounts' brokers start. */
  datatype World = World(
    resolve: SecretRef -> Option<string>,
    absolute: string -> bool,
    headerSafe: string -> bool,
    free: string -> bool,
    start: string -> Option<Broker>)

  // ---------------------------------------------------------------- routes

  datatype Tools = ToolsVerified | ToolsAbsent | ToolsUnverified

  datatype Route = Route(protocol: Protocol, tools: Tools, baseUrl: string)

  function TrimSlashes(url: string): (t: string)
    ensures |t| <= |url| && t == url[..|t|] && (t != "" ==> t[|t| - 1] != '/')
    ensures forall i :: |t| <= i < |url| ==> url[i] == '/'
  {
    if url != "" && url[|url| - 1] == '/' then TrimSlashes(url[..|url| - 1]) else url
  }

  function Serves(protocols: seq<Support>, p: Protocol): Option<Support> {
    if protocols == [] then None
    else if protocols[0].protocol == p then Some(protocols[0])
    else Serves(protocols[1..], p)
  }

  function DeclaredBaseUrl(provider: Provider, p: Protocol): Option<string> {
    var support := Serves(provider.protocols, p);
    if support.Some? && support.value.baseUrl != "" then Some(support.value.baseUrl) else None
  }

  function ToolSemantics(provider: Provider, p: Protocol): Tools {
    match Serves(provider.protocols, p)
    case None => ToolsUnverified
    case Some(support) =>
      match support.toolCalls
      case Unverified => ToolsUnverified
      case Verified(value) => if value then ToolsVerified else ToolsAbsent
  }

  function RouteOf(provider: Provider, p: Protocol): Route
    requires DeclaredBaseUrl(provider, p).Some?
  {
    Route(p, ToolSemantics(provider, p), TrimSlashes(DeclaredBaseUrl(provider, p).value))
  }

  function RoutesOver(provider: Provider, protocols: seq<Protocol>): seq<Route> {
    if protocols == [] then []
    else
      var p := protocols[0];
      (if DeclaredBaseUrl(provider, p).Some? then [RouteOf(provider, p)] else [])
      + RoutesOver(provider, protocols[1..])
  }

  function GatewayRoutes(provider: Provider): seq<Route> {
    RoutesOver(provider, INGRESS)
  }

  function BrokerRoutes(baseUrl: string): (routes: seq<Route>)
    ensures |routes| == |BROKERED|
  {
    seq(|BROKERED|, i requires 0 <= i < |BROKERED| => Route(BROKERED[i], ToolsVerified, TrimSlashes(baseUrl)))
  }

  // ---------------------------------------------------------------- backends

  datatype Cost = Free | Metered

  datatype CredentialId = Named(provider: string, reference: SecretRef) | Internal(provider: string)

  datatype Backend = Backend(
    provider: string,
    routes: seq<Route>,
    key: string,
    credentialId: CredentialId,
    cost: Cost,
    models: set<string>,
    account: Option<string>)

  datatype Refusal = NoProtocolServed | BaseUrlNotAbsolute(protocol: Protocol) | CredentialNotHeaderSafe

  datatype Built = Made(backend: Backend) | Refused(why: Refusal)

  function FirstUnusable(world: World, routes: seq<Route>): Option<Protocol> {
    if routes == [] then None
    else if !world.absolute(routes[0].baseUrl) then Some(routes[0].protocol)
    else FirstUnusable(world, routes[1..])
  }

  function NewBackend(
      world: World, provider: string, routes: seq<Route>, key: string, id: CredentialId, cost: Cost): Built {
    if routes == [] then Refused(NoProtocolServed)
    else if FirstUnusable(world, routes).Some? then Refused(BaseUrlNotAbsolute(FirstUnusable(world, routes).value))
    else if !world.headerSafe(key) then Refused(CredentialNotHeaderSafe)
    else Made(Backend(provider, routes, key, id, cost, {}, None))
  }

  function ModelSet(models: seq<string>): set<string> {
    set m | m in models :: Models.Normalise(m)
  }

  function SubscriptionBackend(world: World, broker: Broker): Built {
    match NewBackend(world, broker.provider, BrokerRoutes(broker.baseUrl), broker.key, Internal(broker.provider), Free)
    case Made(backend) => Made(backend.(models := ModelSet(broker.models)))
    case Refused(why) => Refused(why)
  }

  function CostOf(world: World, provider: string): Cost {
    if world.free(provider) then Free else Metered
  }

  // ---------------------------------------------------------------- one account

  datatype Why =
    BrokerWouldNotStart | NamesNeither | UnknownProvider(name: string) | NoBaseUrl(name: string) | NoCredential
    | Unusable(refusal: Refusal)

  datatype Note = Note(account: string, why: Why)

  datatype Outcome = Served(backend: Backend) | Skipped(note: Note)

  function Find(providers: seq<Provider>, name: string): Option<Provider> {
    if providers == [] then None
    else if providers[0].name == name then Some(providers[0])
    else Find(providers[1..], name)
  }

  function References(account: Account, provider: Provider): (refs: seq<SecretRef>)
    ensures account.credential.None? ==> |refs| == |provider.credentialEnv|
  {
    if account.credential.Some? then [account.credential.value]
    else
      var names := provider.credentialEnv;
      seq(|names|, i requires 0 <= i < |names| => Environment(names[i]))
  }

  /** The first reference that holds a credential, if any does. */
  function Resolved(world: World, refs: seq<SecretRef>): Option<(SecretRef, string)> {
    if refs == [] then None
    else if world.resolve(refs[0]).Some? then Some((refs[0], world.resolve(refs[0]).value))
    else Resolved(world, refs[1..])
  }

  function Settled(name: string, account: Account, built: Built): Outcome {
    match built
    case Made(backend) =>
      Served(backend.(account := Some(name),
                      models := if account.models.Some? && !account.brokered then ModelSet(account.models.value)
                                else backend.models))
    case Refused(why) => Skipped(Note(name, Unusable(why)))
  }

  function OutcomeOf(world: World, providers: seq<Provider>, name: string, account: Account): Outcome {
    if account.brokered then
      var broker := world.start(name);
      if broker.None? then Skipped(Note(name, BrokerWouldNotStart))
      else Settled(name, account, SubscriptionBackend(world, broker.value))
    else if account.provider.None? then Skipped(Note(name, NamesNeither))
    else
      var provider := Find(providers, account.provider.value);
      if provider.None? then Skipped(Note(name, UnknownProvider(account.provider.value)))
      else if GatewayRoutes(provider.value) == [] then Skipped(Note(name, NoBaseUrl(account.provider.value)))
      else
        var resolved := Resolved(world, References(account, provider.value));
        if resolved.None? then Skipped(Note(name, NoCredential))
        else
          var p := provider.value.name;
          Settled(name, account, NewBackend(world, p, GatewayRoutes(provider.value), resolved.value.1,
                                            Named(p, resolved.value.0), CostOf(world, p)))
  }

  // ---------------------------------------------------------------- the pool

  type Catalogue = seq<(string, Account)>

  function ServedOf(world: World, providers: seq<Provider>, accounts: Catalogue): seq<Backend> {
    if accounts == [] then []
    else
      var last := accounts[|accounts| - 1];
      var outcome := OutcomeOf(world, providers, last.0, last.1);
      ServedOf(world, providers, accounts[..|accounts| - 1]) + if outcome.Served? then [outcome.backend] else []
  }

  function NotesOf(world: World, providers: seq<Provider>, accounts: Catalogue): seq<Note> {
    if accounts == [] then []
    else
      var last := accounts[|accounts| - 1];
      var outcome := OutcomeOf(world, providers, last.0, last.1);
      NotesOf(world, providers, accounts[..|accounts| - 1]) + if outcome.Skipped? then [outcome.note] else []
  }

  /** A pool, or the notes of a catalogue none of whose accounts can be used. */
  datatype Pool = Pool(backends: seq<Backend>, notes: seq<Note>) | NoAccountUsable(notes: seq<Note>)

  /** `accounts` in the order of their names. */
  method PoolFromCatalogue(world: World, providers: seq<Provider>, accounts: Catalogue) returns (pool: Pool)
    requires accounts != []
    ensures pool.notes == NotesOf(world, providers, accounts)
    ensures pool.NoAccountUsable? <==> ServedOf(world, providers, accounts) == []
    ensures pool.Pool? ==> pool.backends == ServedOf(world, providers, accounts)
  {
    hide SubscriptionBackend, NewBackend, GatewayRoutes, Find, Resolved, References;
    var backends: seq<Backend>, notes: seq<Note> := [], [];
    for i := 0 to |accounts|
      invariant backends == ServedOf(world, providers, accounts[..i])
      invariant notes == NotesOf(world, providers, accounts[..i])
    {
      var (name, account) := accounts[i];
      assert accounts[..i + 1][..i] == accounts[..i];
      if account.brokered {
        var broker := world.start(name);
        if broker.Some? {
          var built := SubscriptionBackend(world, broker.value);
          if built.Made? {
            backends := backends + [built.backend.(account := Some(name))];
          } else {
            notes := notes + [Note(name, Unusable(built.why))];
          }
        } else {
          notes := notes + [Note(name, BrokerWouldNotStart)];
        }
        continue;
      }
      if account.provider.None? {
        notes := notes + [Note(name, NamesNeither)];
        continue;
      }
      var provider := Find(providers, account.provider.value);
      if provider.None? {
        notes := notes + [Note(name, UnknownProvider(account.provider.value))];
        continue;
      }
      var routes := GatewayRoutes(provider.value);
      if routes == [] {
        notes := notes + [Note(name, NoBaseUrl(account.provider.value))];
        continue;
      }
      var resolved := Resolved(world, References(account, provider.value));
      if resolved.None? {
        notes := notes + [Note(name, NoCredential)];
        continue;
      }
      var (reference, key) := resolved.value;
      var p := provider.value.name;
      var built := NewBackend(world, p, routes, key, Named(p, reference), CostOf(world, p));
      if built.Made? {
        var backend := if account.models.Some? then built.backend.(models := ModelSet(account.models.value))
                       else built.backend;
        backends := backends + [backend.(account := Some(name))];
      } else {
        notes := notes + [Note(name, Unusable(built.why))];
      }
    }
    assert accounts[..|accounts|] == accounts;
    if backends == [] {
      return NoAccountUsable(notes);
    }
    return Pool(backends, notes);
  }

  // ---------------------------------------------------------------- without a catalogue

  /** Every provider with somewhere to forward to, once per credential variable that resolves. */
  datatype Direct =
    | Direct(backends: seq<Backend>)
    | NoProviderServesTheIngress
    | NoCredentialResolves(candidates: seq<(string, seq<string>)>)
    | Impossible(why: Refusal)

  function Compatible(providers: seq<Provider>): seq<Provider> {
    if providers == [] then []
    else (if GatewayRoutes(providers[0]) != [] then [providers[0]] else []) + Compatible(providers[1..])
  }

  function Keyed(world: World, provider: Provider, reference: SecretRef, key: string): Built {
    var name := provider.name;
    NewBackend(world, name, GatewayRoutes(provider), key, Named(name, reference), CostOf(world, name))
  }

  /** The attempts one provider's first `k` variables, or all the providers, give rise to. */
  function Attempts(world: World, provider: Provider, k: nat): seq<Built>
    requires k <= |provider.credentialEnv|
  {
    if k == 0 then []
    else
      var reference := Environment(provider.credentialEnv[k - 1]);
      var key := world.resolve(reference);
      Attempts(world, provider, k - 1) + if key.Some? then [Keyed(world, provider, reference, key.value)] else []
  }

  function AllAttempts(world: World, providers: seq<Provider>): seq<Built> {
    if providers == [] then []
    else
      var last := providers[|providers| - 1];
      AllAttempts(world, providers[..|providers| - 1]) + Attempts(world, last, |last.credentialEnv|)
  }

  predicate Makes(attempts: seq<Built>, backends: seq<Backend>) {
    |attempts| == |backends| && forall i :: 0 <= i < |attempts| ==> attempts[i] == Made(backends[i])
  }

  /** Each provider that was considered, with the variables it would have been given a credential by. */
  predicate Lists(providers: seq<Provider>, named: seq<(string, seq<string>)>) {
    && |named| == |providers|
    && forall i :: 0 <= i < |named| ==> named[i] == (providers[i].name, providers[i].credentialEnv)
  }

  method GatewayUpstream(world: World, providers: seq<Provider>) returns (r: Direct)
    ensures r.NoProviderServesTheIngress? <==> Compatible(providers) == []
    ensures r.NoCredentialResolves?
            <==> Compatible(providers) != [] && AllAttempts(world, Compatible(providers)) == []
    ensures r.NoCredentialResolves? ==> Lists(Compatible(providers), r.candidates)
    ensures r.Direct? ==> Makes(AllAttempts(world, Compatible(providers)), r.backends) && r.backends != []
    ensures r.Impossible? ==>
      var attempts := AllAttempts(world, Compatible(providers));
      exists k :: 0 <= k < |attempts| && attempts[k] == Refused(r.why) && forall j :: 0 <= j < k ==> attempts[j].Made?
  {
    hide Compatible, Keyed, Attempts, AllAttempts, Makes, Lists;
    var candidates := Compatible(providers);
    if candidates == [] {
      return NoProviderServesTheIngress;
    }
    var backends: seq<Backend> := [];
    var named: seq<(string, seq<string>)> := [];
    assert candidates[..0] == [];
    AttemptsBegin(world);
    NothingMade();
    for i := 0 to |candidates|
      invariant Makes(AllAttempts(world, candidates[..i]), backends)
      invariant Lists(candidates[..i], named)
    {
      var provider := candidates[i];
      ListsOn(candidates, i, named);
      named := named + [(provider.name, provider.credentialEnv)];
      AttemptsGrow(world, candidates, i, 0);
      assert AllAttempts(world, candidates[..i]) + [] == AllAttempts(world, candidates[..i]);
      for k := 0 to |provider.credentialEnv|
        invariant Makes(AllAttempts(world, candidates[..i]) + Attempts(world, provider, k), backends)
      {
        var reference := Environment(provider.credentialEnv[k]);
        var key := world.resolve(reference);
        AttemptsGrow(world, candidates, i, k);
        ghost var before := AllAttempts(world, candidates[..i]) + Attempts(world, provider, k);
        if key.None? {
          continue;
        }
        var built := Keyed(world, provider, reference, key.value);
        assert AllAttempts(world, candidates[..i]) + Attempts(world, provider, k + 1) == before + [built];
        if built.Refused? {
          RefusedIsFirst(world, candidates, i, k, built);
          AllMade(before, backends);
          return Impossible(built.why);
        }
        MakesOn(before, backends, built);
        backends := backends + [built.backend];
      }
    }
    assert candidates[..|candidates|] == candidates;
    AllMade(AllAttempts(world, candidates), backends);
    if backends == [] {
      return NoCredentialResolves(named);
    }
    return Direct(backends);
  }

  lemma MakesOn(attempts: seq<Built>, backends: seq<Backend>, built: Built)
    requires Makes(attempts, backends) && built.Made?
    ensures Makes(attempts + [built], backends + [built.backend])
  {
  }

  lemma AllMade(attempts: seq<Built>, backends: seq<Backend>)
    requires Makes(attempts, backends)
    ensures |attempts| == |backends| && forall j :: 0 <= j < |attempts| ==> attempts[j].Made?
  {
  }

  lemma ListsOn(providers: seq<Provider>, i: nat, named: seq<(string, seq<string>)>)
    requires i < |providers| && Lists(providers[..i], named)
    ensures Lists(providers[..i + 1], named + [(providers[i].name, providers[i].credentialEnv)])
  {
  }

  lemma NothingMade()
    ensures Makes([], []) && Lists([], [])
  {
  }

  lemma AttemptsBegin(world: World)
    ensures AllAttempts(world, []) == []
  {
  }

  lemma AttemptsGrow(world: World, providers: seq<Provider>, i: nat, k: nat)
    requires i < |providers| && k <= |providers[i].credentialEnv|
    ensures Attempts(world, providers[i], 0) == []
    ensures k < |providers[i].credentialEnv|
            ==> var reference := Environment(providers[i].credentialEnv[k]);
                var key := world.resolve(reference);
                Attempts(world, providers[i], k + 1)
                == if key.Some? then
                     Attempts(world, providers[i], k) + [Keyed(world, providers[i], reference, key.value)]
                   else Attempts(world, providers[i], k)
    ensures AllAttempts(world, providers[..i + 1])
            == AllAttempts(world, providers[..i]) + Attempts(world, providers[i], |providers[i].credentialEnv|)
  {
    hide Keyed;
    assert providers[..i + 1][..i] == providers[..i];
  }

  /** There is an attempt for a provider's variable exactly when the provider has a route and the variable resolves. */
  lemma AttemptIff(world: World, providers: seq<Provider>, built: Built)
    ensures built in AllAttempts(world, Compatible(providers))
            <==> exists provider, v :: && provider in providers && GatewayRoutes(provider) != []
                                       && v in provider.credentialEnv && IsAttempt(world, provider, v, built)
  {
    hide IsAttempt, GatewayRoutes;
    AllAttemptsAre(world, Compatible(providers), built);
    forall provider
      ensures provider in Compatible(providers) <==> provider in providers && GatewayRoutes(provider) != []
    {
      CompatibleAre(providers, provider);
    }
  }

  predicate IsAttempt(world: World, provider: Provider, variable: string, built: Built) {
    var key := world.resolve(Environment(variable));
    key.Some? && built == Keyed(world, provider, Environment(variable), key.value)
  }

  lemma {:induction false} CompatibleAre(providers: seq<Provider>, provider: Provider)
    ensures provider in Compatible(providers) <==> provider in providers && GatewayRoutes(provider) != []
  {
    hide GatewayRoutes;
    if providers != [] {
      CompatibleAre(providers[1..], provider);
      assert provider in providers <==> provider == providers[0] || provider in providers[1..];
    }
  }

  lemma {:induction false} AttemptsAre(world: World, provider: Provider, k: nat, built: Built)
    requires k <= |provider.credentialEnv|
    ensures built in Attempts(world, provider, k)
            <==> exists v :: v in provider.credentialEnv[..k] && IsAttempt(world, provider, v, built)
  {
    hide Keyed;
    if k > 0 {
      AttemptsAre(world, provider, k - 1, built);
      var v := provider.credentialEnv[k - 1];
      var vs := provider.credentialEnv[..k - 1];
      assert provider.credentialEnv[..k] == vs + [v];
      assert built in Attempts(world, provider, k)
        <==> built in Attempts(world, provider, k - 1) || IsAttempt(world, provider, v, built);
      assert forall w :: w in vs + [v] <==> w in vs || w == v;
    }
  }

  lemma {:induction false} AllAttemptsAre(world: World, providers: seq<Provider>, built: Built)
    ensures built in AllAttempts(world, providers)
            <==> exists provider, v :: && provider in providers && v in provider.credentialEnv
                                       && IsAttempt(world, provider, v, built)
  {
    hide IsAttempt, Attempts;
    if providers != [] {
      var last := providers[|providers| - 1];
      var rest := providers[..|providers| - 1];
      AllAttemptsAre(world, rest, built);
      AttemptsAre(world, last, |last.credentialEnv|, built);
      assert last.credentialEnv[..|last.credentialEnv|] == last.credentialEnv;
      assert providers == rest + [last];
    }
  }

  /** What an attempt makes: a backend under its own provider's name, with its routes and the variable's value. */
  lemma AttemptIs(world: World, provider: Provider, variable: string, built: Built)
    requires IsAttempt(world, provider, variable, built) && built.Made?
    ensures
      var backend := built.backend;
      && backend.provider == provider.name && backend.routes == GatewayRoutes(provider)
      && world.resolve(Environment(variable)) == Some(backend.key)
      && backend.credentialId == Named(provider.name, Environment(variable))
      && (backend.cost == Free <==> world.free(provider.name))
      && backend.models == {} && backend.account == None
  {
    hide GatewayRoutes, FirstUnusable;
  }

  /** Attempts follow the order of the providers, and within one the order of its variables. */
  lemma {:induction false} AttemptsInOrder(world: World, first: seq<Provider>, second: seq<Provider>)
    ensures AllAttempts(world, Compatible(first + second))
            == AllAttempts(world, Compatible(first)) + AllAttempts(world, Compatible(second))
  {
    hide Compatible, AllAttempts;
    CompatibleInOrder(first, second);
    AllAttemptsInOrder(world, Compatible(first), Compatible(second));
  }

  lemma {:induction false} CompatibleInOrder(first: seq<Provider>, second: seq<Provider>)
    ensures Compatible(first + second) == Compatible(first) + Compatible(second)
  {
    hide GatewayRoutes;
    if first == [] {
      assert first + second == second;
    } else {
      assert (first + second)[1..] == first[1..] + second;
      CompatibleInOrder(first[1..], second);
    }
  }

  lemma {:induction false} AllAttemptsInOrder(world: World, first: seq<Provider>, second: seq<Provider>)
    ensures AllAttempts(world, first + second) == AllAttempts(world, first) + AllAttempts(world, second)
    decreases |second|
  {
    hide Attempts;
    var all, n := first + second, |first + second| - 1;
    if second == [] {
      assert all == first;
    } else {
      assert all[..n] == first + second[..|second| - 1];
      AllAttemptsInOrder(world, first, second[..|second| - 1]);
    }
  }

  /** A provider's variables are attempted in their order, those that resolve. */
  lemma VariablesInOrder(world: World, provider: Provider, k: nat)
    requires k < |provider.credentialEnv|
    ensures
      var variable := provider.credentialEnv[k];
      if world.resolve(Environment(variable)).None? then
        Attempts(world, provider, k + 1) == Attempts(world, provider, k)
      else
        exists built :: && IsAttempt(world, provider, variable, built)
                        && Attempts(world, provider, k + 1) == Attempts(world, provider, k) + [built]
  {
    hide Keyed;
    var reference := Environment(provider.credentialEnv[k]);
    var key := world.resolve(reference);
    if key.Some? {
      assert IsAttempt(world, provider, provider.credentialEnv[k], Keyed(world, provider, reference, key.value));
    }
  }

  /** What has been attempted so far begins all that would be attempted. */
  lemma {:induction false} AttemptsAreAPrefix(world: World, provider: Provider, k: nat)
    requires k <= |provider.credentialEnv|
    ensures Attempts(world, provider, k) <= Attempts(world, provider, |provider.credentialEnv|)
    decreases |provider.credentialEnv| - k
  {
    hide Keyed;
    if k < |provider.credentialEnv| {
      AttemptsAreAPrefix(world, provider, k + 1);
      assert Attempts(world, provider, k) <= Attempts(world, provider, k + 1);
    }
  }

  lemma {:induction false} AllAttemptsAreAPrefix(world: World, providers: seq<Provider>, i: nat)
    requires i <= |providers|
    ensures AllAttempts(world, providers[..i]) <= AllAttempts(world, providers)
    decreases |providers| - i
  {
    hide Attempts;
    if i < |providers| {
      AllAttemptsAreAPrefix(world, providers, i + 1);
      assert providers[..i + 1][..i] == providers[..i];
      assert AllAttempts(world, providers[..i]) <= AllAttempts(world, providers[..i + 1]);
    } else {
      assert providers[..i] == providers;
    }
  }

  lemma RefusedIsFirst(world: World, providers: seq<Provider>, i: nat, k: nat, built: Built)
    requires i < |providers| && k < |providers[i].credentialEnv|
    requires Attempts(world, providers[i], k + 1) == Attempts(world, providers[i], k) + [built]
    ensures var at := |AllAttempts(world, providers[..i])| + |Attempts(world, providers[i], k)|;
            && at < |AllAttempts(world, providers)| && AllAttempts(world, providers)[at] == built
            && AllAttempts(world, providers)[..at]
               == AllAttempts(world, providers[..i]) + Attempts(world, providers[i], k)
  {
    hide Attempts, AllAttempts;
    AttemptsGrow(world, providers, i, 0);
    AttemptsAreAPrefix(world, providers[i], k + 1);
    AllAttemptsAreAPrefix(world, providers, i + 1);
  }

  // ---------------------------------------------------------------- every account once

  /** The name a backend is known by. */
  function AccountOf(backend: Backend): string {
    if backend.account.Some? then backend.account.value else backend.provider
  }

  function BackendNames(backends: seq<Backend>): (names: seq<string>)
    ensures |names| == |backends|
  {
    seq(|backends|, i requires 0 <= i < |backends| => AccountOf(backends[i]))
  }

  function NoteNames(notes: seq<Note>): (names: seq<string>)
    ensures |names| == |notes|
  {
    seq(|notes|, i requires 0 <= i < |notes| => notes[i].account)
  }

  function CatalogueNames(accounts: Catalogue): (names: seq<string>)
    ensures |names| == |accounts|
  {
    seq(|accounts|, i requires 0 <= i < |accounts| => accounts[i].0)
  }

  predicate InOrder(names: seq<string>) {
    forall i, j :: 0 <= i < j < |names| ==> Models.Before(names[i], names[j])
  }

  lemma OutcomeIsNamed(world: World, providers: seq<Provider>, name: string, account: Account)
    ensures var outcome := OutcomeOf(world, providers, name, account);
            if outcome.Served? then AccountOf(outcome.backend) == name else outcome.note.account == name
  {
    hide SubscriptionBackend, NewBackend, GatewayRoutes, Find, Resolved, References;
  }

  function ServedNames(world: World, providers: seq<Provider>, accounts: Catalogue): seq<string> {
    BackendNames(ServedOf(world, providers, accounts))
  }

  function NotedNames(world: World, providers: seq<Provider>, accounts: Catalogue): seq<string> {
    NoteNames(NotesOf(world, providers, accounts))
  }

  lemma NamesOfOneMore(world: World, providers: seq<Provider>, accounts: Catalogue)
    requires accounts != []
    ensures var rest, name := accounts[..|accounts| - 1], accounts[|accounts| - 1].0;
            var served := OutcomeOf(world, providers, name, accounts[|accounts| - 1].1).Served?;
            && CatalogueNames(accounts) == CatalogueNames(rest) + [name]
            && ServedNames(world, providers, accounts)
               == (if served then ServedNames(world, providers, rest) + [name] else ServedNames(world, providers, rest))
            && NotedNames(world, providers, accounts)
               == (if served then NotedNames(world, providers, rest) else NotedNames(world, providers, rest) + [name])
  {
    hide OutcomeOf;
    var last := accounts[|accounts| - 1];
    OutcomeIsNamed(world, providers, last.0, last.1);
  }

  /** Each account is either a backend of the pool or a note, once, and both lists keep the catalogue's name order. */
  lemma {:induction false} EveryAccountOnce(world: World, providers: seq<Provider>, accounts: Catalogue)
    ensures multiset(ServedNames(world, providers, accounts)) + multiset(NotedNames(world, providers, accounts))
            == multiset(CatalogueNames(accounts))
    ensures InOrder(CatalogueNames(accounts))
            ==> InOrder(ServedNames(world, providers, accounts)) && InOrder(NotedNames(world, providers, accounts))
  {
    hide OutcomeOf, InOrder, ServedNames, NotedNames, CatalogueNames, Models.Before;
    if accounts == [] {
      NobodyIsNamed(world, providers);
    } else {
      var rest, name := accounts[..|accounts| - 1], accounts[|accounts| - 1].0;
      EveryAccountOnce(world, providers, rest);
      NamesOfOneMore(world, providers, accounts);
      var all := CatalogueNames(rest);
      var served, noted := ServedNames(world, providers, rest), NotedNames(world, providers, rest);
      assert forall n :: n in multiset(served) + multiset(noted) <==> n in multiset(all);
      if InOrder(all + [name]) {
        assert forall n :: n in multiset(served) || n in multiset(noted) ==> n in multiset(all);
        OrderOfOneMore(all, all, name);
        OrderOfOneMore(all, served, name);
        OrderOfOneMore(all, noted, name);
      }
    }
  }

  lemma NobodyIsNamed(world: World, providers: seq<Provider>)
    ensures ServedNames(world, providers, []) == [] && NotedNames(world, providers, []) == []
    ensures CatalogueNames([]) == []
    ensures InOrder([])
  {
  }

  lemma OrderOfOneMore(all: seq<string>, some: seq<string>, name: string)
    requires InOrder(all + [name])
    requires forall n :: n in multiset(some) ==> n in multiset(all)
    ensures InOrder(all)
    ensures InOrder(some) ==> InOrder(some + [name])
  {
    hide Models.Before;
    var more := all + [name];
    forall i, j | 0 <= i < j < |all|
      ensures Models.Before(all[i], all[j])
    {
      assert Models.Before(more[i], more[j]);
    }
    forall i | 0 <= i < |some|
      ensures Models.Before(some[i], name)
    {
      assert some[i] in multiset(some);
      var k :| 0 <= k < |all| && all[k] == some[i];
      assert Models.Before(more[k], more[|all|]);
    }
  }

  /** What account `i` of a catalogue comes to. */
  function OutcomeAt(world: World, providers: seq<Provider>, accounts: Catalogue, i: nat): Outcome
    requires i < |accounts|
  {
    OutcomeOf(world, providers, accounts[i].0, accounts[i].1)
  }

  ghost predicate SomeComesTo(world: World, providers: seq<Provider>, accounts: Catalogue, outcome: Outcome) {
    exists i: nat :: i < |accounts| && OutcomeAt(world, providers, accounts, i) == outcome
  }

  lemma OneMoreComesTo(world: World, providers: seq<Provider>, accounts: Catalogue, outcome: Outcome)
    requires accounts != []
    ensures var n := |accounts| - 1;
            SomeComesTo(world, providers, accounts, outcome)
            <==> SomeComesTo(world, providers, accounts[..n], outcome)
                 || OutcomeAt(world, providers, accounts, n) == outcome
  {
    hide OutcomeOf;
    var rest := accounts[..|accounts| - 1];
    if SomeComesTo(world, providers, accounts, outcome) {
      var i: nat :| i < |accounts| && OutcomeAt(world, providers, accounts, i) == outcome;
      assert i < |rest| ==> OutcomeAt(world, providers, rest, i) == outcome;
    }
    if SomeComesTo(world, providers, rest, outcome) {
      var i: nat :| i < |rest| && OutcomeAt(world, providers, rest, i) == outcome;
      assert OutcomeAt(world, providers, accounts, i) == outcome;
    }
  }

  /** The pool's backends and notes are what its accounts come to, and nothing else. */
  lemma {:induction false} PoolHolds(
      world: World, providers: seq<Provider>, accounts: Catalogue, backend: Backend, note: Note)
    ensures backend in ServedOf(world, providers, accounts)
            <==> SomeComesTo(world, providers, accounts, Served(backend))
    ensures note in NotesOf(world, providers, accounts)
            <==> SomeComesTo(world, providers, accounts, Skipped(note))
  {
    hide OutcomeOf;
    if accounts != [] {
      PoolHolds(world, providers, accounts[..|accounts| - 1], backend, note);
      OneMoreComesTo(world, providers, accounts, Served(backend));
      OneMoreComesTo(world, providers, accounts, Skipped(note));
    }
  }

  // ---------------------------------------------------------------- which routes a provider has

  lemma EveryProtocolIsIngress(p: Protocol)
    ensures p in INGRESS
  {
    assert p == INGRESS[match p
                        case AnthropicMessages => 0
                        case OpenAiResponses => 1
                        case OpenAiChat => 2
                        case GeminiGenerateContent => 3
                        case TypesafeSystemOne => 4];
  }

  lemma {:induction false} RoutesOverIff(provider: Provider, protocols: seq<Protocol>, route: Route)
    ensures route in RoutesOver(provider, protocols)
            <==> && route.protocol in protocols
                 && DeclaredBaseUrl(provider, route.protocol).Some? && route == RouteOf(provider, route.protocol)
  {
    hide DeclaredBaseUrl, ToolSemantics, TrimSlashes;
    if protocols != [] {
      RoutesOverIff(provider, protocols[1..], route);
      assert route.protocol in protocols <==> route.protocol == protocols[0] || route.protocol in protocols[1..];
    }
  }

  /** A provider has a route for exactly the protocols it declares a base URL for. */
  lemma RouteIffDeclared(provider: Provider, p: Protocol)
    ensures (exists route :: route in GatewayRoutes(provider) && route.protocol == p)
            <==> DeclaredBaseUrl(provider, p).Some?
  {
    hide DeclaredBaseUrl, ToolSemantics, TrimSlashes, RoutesOver, INGRESS;
    EveryProtocolIsIngress(p);
    var url := DeclaredBaseUrl(provider, p);
    if url.Some? {
      RoutesOverIff(provider, INGRESS, RouteOf(provider, p));
    }
    forall route | route in GatewayRoutes(provider) && route.protocol == p
      ensures url.Some?
    {
      RoutesOverIff(provider, INGRESS, route);
    }
  }

  lemma {:induction false} UsableIff(world: World, routes: seq<Route>)
    ensures FirstUnusable(world, routes).None? <==> forall route :: route in routes ==> world.absolute(route.baseUrl)
  {
    if routes != [] {
      UsableIff(world, routes[1..]);
      assert forall route :: route in routes <==> route == routes[0] || route in routes[1..];
    }
  }

  // ---------------------------------------------------------------- when an account is served

  /** `i` is the first of `refs` to hold a credential. */
  predicate FirstToResolve(world: World, refs: seq<SecretRef>, i: nat) {
    && i < |refs| && world.resolve(refs[i]).Some?
    && forall j :: 0 <= j < i ==> world.resolve(refs[j]).None?
  }

  lemma {:induction false} ResolvedIsFirst(world: World, refs: seq<SecretRef>)
    ensures var r := Resolved(world, refs);
            if r.None? then forall i :: 0 <= i < |refs| ==> world.resolve(refs[i]).None?
            else exists i: nat :: FirstToResolve(world, refs, i) && r.value == (refs[i], world.resolve(refs[i]).value)
  {
    if refs != [] {
      ResolvedIsFirst(world, refs[1..]);
      var r := Resolved(world, refs[1..]);
      if world.resolve(refs[0]).Some? {
        assert FirstToResolve(world, refs, 0);
      } else if r.Some? {
        var i: nat :| && FirstToResolve(world, refs[1..], i)
                      && r.value == (refs[1..][i], world.resolve(refs[1..][i]).value);
        assert FirstToResolve(world, refs, i + 1);
      }
    }
  }

  // ---------------------------------------------------------------- which entries decide

  /** The first entry of `providers` under a name. */
  predicate FirstNamed(providers: seq<Provider>, name: string, i: nat) {
    i < |providers| && providers[i].name == name && forall j :: 0 <= j < i ==> providers[j].name != name
  }

  lemma {:induction false} FindIsFirst(providers: seq<Provider>, name: string)
    ensures var found := Find(providers, name);
            if found.None? then forall i :: 0 <= i < |providers| ==> providers[i].name != name
            else exists i: nat :: FirstNamed(providers, name, i) && found.value == providers[i]
  {
    if providers != [] {
      FindIsFirst(providers[1..], name);
      var later := Find(providers[1..], name);
      if providers[0].name == name {
        assert FirstNamed(providers, name, 0);
      } else if later.Some? {
        var i: nat :| FirstNamed(providers[1..], name, i) && later.value == providers[1..][i];
        assert FirstNamed(providers, name, i + 1);
      }
    }
  }

  /** The entry a provider declares a protocol by: the first for it, when that one has a base URL. */
  predicate Declares(provider: Provider, p: Protocol, k: nat) {
    && k < |provider.protocols| && provider.protocols[k].protocol == p
    && provider.protocols[k].baseUrl != ""
    && forall j :: 0 <= j < k ==> provider.protocols[j].protocol != p
  }

  /** `support` is the first of `protocols` for `p`. */
  ghost predicate FirstFor(protocols: seq<Support>, p: Protocol, support: Support) {
    exists k :: 0 <= k < |protocols| && protocols[k] == support && support.protocol == p
                && forall j :: 0 <= j < k ==> protocols[j].protocol != p
  }

  lemma {:induction false} ServesIsFirst(protocols: seq<Support>, p: Protocol)
    ensures var support := Serves(protocols, p);
            if support.None? then forall k :: 0 <= k < |protocols| ==> protocols[k].protocol != p
            else FirstFor(protocols, p, support.value)
  {
    if protocols != [] {
      ServesIsFirst(protocols[1..], p);
      var later := Serves(protocols[1..], p);
      if protocols[0].protocol != p && later.Some? {
        var k :| 0 <= k < |protocols[1..]| && protocols[1..][k] == later.value
                 && forall j :: 0 <= j < k ==> protocols[1..][j].protocol != p;
        assert protocols[k + 1] == later.value;
        forall j | 0 <= j < k + 1
          ensures protocols[j].protocol != p
        {
          assert j > 0 ==> protocols[j] == protocols[1..][j - 1];
        }
      }
    }
  }

  lemma DeclaredIff(provider: Provider, p: Protocol)
    ensures DeclaredBaseUrl(provider, p).Some? <==> exists k: nat :: Declares(provider, p, k)
    ensures forall k: nat :: Declares(provider, p, k) ==> Serves(provider.protocols, p) == Some(provider.protocols[k])
  {
    hide Serves;
    ServesIsFirst(provider.protocols, p);
    var support := Serves(provider.protocols, p);
    if support.Some? {
      var k :| 0 <= k < |provider.protocols| && provider.protocols[k] == support.value
               && forall j :: 0 <= j < k ==> provider.protocols[j].protocol != p;
      assert support.value.baseUrl != "" ==> Declares(provider, p, k);
    }
  }

  /** `route` leads where `support` says, without the slashes it ends in, and knows of its tools what it says. */
  predicate Leads(route: Route, support: Support) {
    && route.protocol == support.protocol
    && StartsWith(support.baseUrl, route.baseUrl) && OnlySlashes(support.baseUrl[|route.baseUrl|..])
    && (route.baseUrl == "" || route.baseUrl[|route.baseUrl| - 1] != '/')
    && (route.tools == ToolsVerified <==> support.toolCalls == Verified(true))
    && (route.tools == ToolsAbsent <==> support.toolCalls == Verified(false))
  }

  function Rank(p: Protocol): nat {
    match p
    case AnthropicMessages => 0
    case OpenAiResponses => 1
    case OpenAiChat => 2
    case GeminiGenerateContent => 3
    case TypesafeSystemOne => 4
  }

  predicate Ranked(protocols: seq<Protocol>) {
    forall i, j :: 0 <= i < j < |protocols| ==> Rank(protocols[i]) < Rank(protocols[j])
  }

  function ProtocolsOf(routes: seq<Route>): (protocols: seq<Protocol>)
    ensures |protocols| == |routes| && forall i :: 0 <= i < |routes| ==> protocols[i] == routes[i].protocol
  {
    seq(|routes|, i requires 0 <= i < |routes| => routes[i].protocol)
  }

  ghost predicate DeclaredBy(provider: Provider, route: Route) {
    exists k: nat :: Declares(provider, route.protocol, k) && Leads(route, provider.protocols[k])
  }

  ghost predicate AllAreDeclared(provider: Provider, routes: seq<Route>) {
    forall i :: 0 <= i < |routes| ==> DeclaredBy(provider, routes[i])
  }

  ghost predicate AllDeclaredAreThere(provider: Provider, routes: seq<Route>) {
    forall p, k: nat :: Declares(provider, p, k) ==> exists i :: 0 <= i < |routes| && routes[i].protocol == p
  }

  /** One route for each protocol the provider declares, by the entry it declares it by, in the ingress's order. */
  ghost predicate RoutesOf(provider: Provider, routes: seq<Route>) {
    Ranked(ProtocolsOf(routes)) && AllAreDeclared(provider, routes) && AllDeclaredAreThere(provider, routes)
  }

  lemma {:induction false} RoutesKeepOrder(provider: Provider, protocols: seq<Protocol>)
    requires Ranked(protocols)
    ensures Ranked(ProtocolsOf(RoutesOver(provider, protocols)))
    ensures forall p :: p in ProtocolsOf(RoutesOver(provider, protocols)) ==> p in protocols
  {
    hide Rank, DeclaredBaseUrl, ToolSemantics, TrimSlashes;
    if protocols != [] {
      var p, rest := protocols[0], protocols[1..];
      RoutesKeepOrder(provider, rest);
      var later := RoutesOver(provider, rest);
      var ps := ProtocolsOf(later);
      if DeclaredBaseUrl(provider, p).Some? {
        assert ProtocolsOf(RoutesOver(provider, protocols)) == [p] + ps;
        forall i | 0 <= i < |ps|
          ensures Rank(p) < Rank(ps[i])
        {
          assert ps[i] in ps;
          var j :| 0 <= j < |rest| && rest[j] == ps[i];
          assert protocols[j + 1] == rest[j];
        }
      } else {
        assert RoutesOver(provider, protocols) == later;
      }
    }
  }

  lemma RouteLeads(provider: Provider, p: Protocol, k: nat)
    requires Declares(provider, p, k) && DeclaredBaseUrl(provider, p).Some?
    ensures Leads(RouteOf(provider, p), provider.protocols[k])
  {
    hide Serves, TrimSlashes;
    DeclaredIff(provider, p);
  }

  lemma GatewayRoutesAre(provider: Provider)
    ensures RoutesOf(provider, GatewayRoutes(provider))
  {
    hide DeclaredBaseUrl, ToolSemantics, RoutesOver, TrimSlashes, AllAreDeclared, AllDeclaredAreThere;
    RoutesKeepOrder(provider, INGRESS);
    RoutesAreDeclared(provider);
    DeclaredAreRoutes(provider);
  }

  lemma RoutesAreDeclared(provider: Provider)
    ensures AllAreDeclared(provider, GatewayRoutes(provider))
  {
    hide DeclaredBaseUrl, ToolSemantics, RoutesOver, Leads, TrimSlashes;
    var routes := GatewayRoutes(provider);
    forall i | 0 <= i < |routes|
      ensures DeclaredBy(provider, routes[i])
    {
      assert routes[i] in routes;
      RoutesOverIff(provider, INGRESS, routes[i]);
      DeclaredIff(provider, routes[i].protocol);
      var k: nat :| Declares(provider, routes[i].protocol, k);
      RouteLeads(provider, routes[i].protocol, k);
    }
  }

  lemma DeclaredAreRoutes(provider: Provider)
    ensures AllDeclaredAreThere(provider, GatewayRoutes(provider))
  {
    hide DeclaredBaseUrl, GatewayRoutes, Declares;
    var routes := GatewayRoutes(provider);
    forall p, k: nat | Declares(provider, p, k)
      ensures exists i :: 0 <= i < |routes| && routes[i].protocol == p
    {
      DeclaredIff(provider, p);
      RouteIffDeclared(provider, p);
      var route :| route in routes && route.protocol == p;
      var i :| 0 <= i < |routes| && routes[i] == route;
    }
  }

  /** The credential an account would use: the one it states, or else the first of its provider's variables to hold
      one. */
  ghost predicate Credential(world: World, account: Account, provider: Provider, reference: SecretRef, key: string) {
    && world.resolve(reference) == Some(key)
    && if account.credential.Some? then reference == account.credential.value
       else exists v :: && 0 <= v < |provider.credentialEnv| && reference == Environment(provider.credentialEnv[v])
                        && forall w :: 0 <= w < v ==> world.resolve(Environment(provider.credentialEnv[w])).None?
  }

  lemma CredentialIs(world: World, account: Account, provider: Provider)
    ensures var resolved := Resolved(world, References(account, provider));
            forall reference, key ::
              Credential(world, account, provider, reference, key) <==> resolved == Some((reference, key))
  {
    hide Resolved;
    var refs := References(account, provider);
    ResolvedIsFirst(world, refs);
    var resolved := Resolved(world, refs);
    forall reference, key | Credential(world, account, provider, reference, key)
      ensures resolved == Some((reference, key))
    {
      if account.credential.Some? {
        assert refs == [reference];
        assert FirstToResolve(world, refs, 0);
      } else {
        var v :| && 0 <= v < |provider.credentialEnv| && reference == Environment(provider.credentialEnv[v])
                 && forall w :: 0 <= w < v ==> world.resolve(Environment(provider.credentialEnv[w])).None?;
        assert refs[v] == reference;
        assert forall w :: 0 <= w < v ==> refs[w] == Environment(provider.credentialEnv[w]);
        assert FirstToResolve(world, refs, v);
      }
    }
    if resolved.Some? {
      var i: nat :| FirstToResolve(world, refs, i) && resolved.value == (refs[i], world.resolve(refs[i]).value);
      assert account.credential.None? ==>
        forall w :: 0 <= w < i ==> refs[w] == Environment(provider.credentialEnv[w]);
      assert Credential(world, account, provider, resolved.value.0, resolved.value.1);
    }
  }

  ghost predicate DeclaresAny(provider: Provider) {
    exists p, k: nat :: Declares(provider, p, k)
  }

  /** The first protocol, in the ingress's order, that the provider declares a base URL for that cannot be called. */
  ghost predicate FirstUncallable(world: World, provider: Provider, p: Protocol) {
    && (exists k: nat :: Declares(provider, p, k) && !world.absolute(TrimSlashes(provider.protocols[k].baseUrl)))
    && (forall q, k: nat :: Declares(provider, q, k) && !world.absolute(TrimSlashes(provider.protocols[k].baseUrl))
                            ==> Rank(p) <= Rank(q))
  }

  /** What the catalogue comes to for an account that names a provider: which entry of `providers` and which reference
      decide, and what each failure is noted as. */
  ghost predicate Comes(world: World, providers: seq<Provider>, name: string, account: Account, outcome: Outcome)
    requires account.provider.Some?
  {
    var n := account.provider.value;
    if forall i :: 0 <= i < |providers| ==> providers[i].name != n then
      outcome == Skipped(Note(name, UnknownProvider(n)))
    else exists i: nat ::
      && FirstNamed(providers, n, i)
      && ComesFrom(world, providers[i], name, account, outcome)
  }

  ghost predicate ComesFrom(world: World, provider: Provider, name: string, account: Account, outcome: Outcome) {
    if !DeclaresAny(provider) then outcome == Skipped(Note(name, NoBaseUrl(provider.name)))
    else if forall reference, key :: !Credential(world, account, provider, reference, key) then
      outcome == Skipped(Note(name, NoCredential))
    else if exists p :: FirstUncallable(world, provider, p) then
      exists p :: FirstUncallable(world, provider, p) && outcome == Skipped(Note(name, Unusable(BaseUrlNotAbsolute(p))))
    else exists reference, key ::
      && Credential(world, account, provider, reference, key)
      && if !world.headerSafe(key) then outcome == Skipped(Note(name, Unusable(CredentialNotHeaderSafe)))
         else outcome.Served? && BackendIs(world, provider, name, account, reference, key, outcome.backend)
  }

  ghost predicate BackendIs(
      world: World, provider: Provider, name: string, account: Account, reference: SecretRef, key: string,
      backend: Backend) {
    && backend.provider == provider.name && backend.account == Some(name)
    && RoutesOf(provider, backend.routes)
    && backend.key == key && backend.credentialId == Named(provider.name, reference)
    && (backend.cost == Free <==> world.free(provider.name))
    && forall m :: m in backend.models <==>
         && account.models.Some?
         && exists k :: 0 <= k < |account.models.value| && Models.Normalise(account.models.value[k]) == m
  }

  lemma {:induction false} FirstUnusableIs(world: World, routes: seq<Route>)
    ensures var first := FirstUnusable(world, routes);
            if first.None? then forall i :: 0 <= i < |routes| ==> world.absolute(routes[i].baseUrl)
            else exists i :: && 0 <= i < |routes| && routes[i].protocol == first.value
                             && !world.absolute(routes[i].baseUrl)
                             && forall j :: 0 <= j < i ==> world.absolute(routes[j].baseUrl)
  {
    if routes != [] {
      FirstUnusableIs(world, routes[1..]);
      var later := FirstUnusable(world, routes[1..]);
      if world.absolute(routes[0].baseUrl) && later.Some? {
        var i :| && 0 <= i < |routes[1..]| && routes[1..][i].protocol == later.value
                 && !world.absolute(routes[1..][i].baseUrl)
                 && forall j :: 0 <= j < i ==> world.absolute(routes[1..][j].baseUrl);
        forall j | 0 <= j < i + 1
          ensures world.absolute(routes[j].baseUrl)
        {
          assert j > 0 ==> routes[j] == routes[1..][j - 1];
        }
        assert routes[i + 1] == routes[1..][i];
      }
    }
  }

  lemma RouteAt(provider: Provider, i: nat)
    requires i < |GatewayRoutes(provider)|
    ensures var route := GatewayRoutes(provider)[i];
            && (exists k: nat :: Declares(provider, route.protocol, k))
            && forall k: nat :: Declares(provider, route.protocol, k)
                                ==> route.baseUrl == TrimSlashes(provider.protocols[k].baseUrl)
  {
    hide Serves, RoutesOver, TrimSlashes;
    var route := GatewayRoutes(provider)[i];
    RoutesOverIff(provider, INGRESS, route);
    DeclaredIff(provider, route.protocol);
  }

  lemma DeclaredHasRoute(provider: Provider, p: Protocol, k: nat) returns (i: nat)
    requires Declares(provider, p, k)
    ensures var routes := GatewayRoutes(provider);
            && i < |routes| && routes[i].protocol == p
            && routes[i].baseUrl == TrimSlashes(provider.protocols[k].baseUrl)
  {
    hide GatewayRoutes, TrimSlashes, Leads, Ranked;
    GatewayRoutesAre(provider);
    var routes := GatewayRoutes(provider);
    i :| 0 <= i < |routes| && routes[i].protocol == p;
    RouteAt(provider, i);
  }

  lemma RanksRise(provider: Provider, i: nat, j: nat)
    requires i <= j < |GatewayRoutes(provider)|
    ensures Rank(GatewayRoutes(provider)[i].protocol) <= Rank(GatewayRoutes(provider)[j].protocol)
  {
    hide GatewayRoutes, TrimSlashes, Leads, Rank, Declares;
    GatewayRoutesAre(provider);
    var ps := ProtocolsOf(GatewayRoutes(provider));
    assert i < j ==> Rank(ps[i]) < Rank(ps[j]);
  }

  lemma UncallableIs(world: World, provider: Provider)
    ensures var first := FirstUnusable(world, GatewayRoutes(provider));
            if first.None? then forall p :: !FirstUncallable(world, provider, p)
            else FirstUncallable(world, provider, first.value)
  {
    hide GatewayRoutes, TrimSlashes, FirstUnusable, Rank;
    var routes := GatewayRoutes(provider);
    var first := FirstUnusable(world, routes);
    FirstUnusableIs(world, routes);
    var i: nat := 0;
    if first.Some? {
      i :| && 0 <= i < |routes| && routes[i].protocol == first.value && !world.absolute(routes[i].baseUrl)
           && forall j :: 0 <= j < i ==> world.absolute(routes[j].baseUrl);
      RouteAt(provider, i);
    }
    forall q, k: nat | Declares(provider, q, k) && !world.absolute(TrimSlashes(provider.protocols[k].baseUrl))
      ensures first.Some? && Rank(first.value) <= Rank(q)
    {
      var j := DeclaredHasRoute(provider, q, k);
      RanksRise(provider, i, j);
    }
  }

  lemma DeclaresAnyIff(provider: Provider)
    ensures DeclaresAny(provider) <==> GatewayRoutes(provider) != []
  {
    hide GatewayRoutes, TrimSlashes, Declares;
    if DeclaresAny(provider) {
      var p, k: nat :| Declares(provider, p, k);
      var i := DeclaredHasRoute(provider, p, k);
    }
    if GatewayRoutes(provider) != [] {
      RouteAt(provider, 0);
    }
  }

  lemma BuiltIs(world: World, provider: Provider, name: string, account: Account, reference: SecretRef, key: string)
    requires !account.brokered && GatewayRoutes(provider) != []
    requires Credential(world, account, provider, reference, key)
    ensures var built := NewBackend(world, provider.name, GatewayRoutes(provider), key,
                                    Named(provider.name, reference), CostOf(world, provider.name));
            ComesFrom(world, provider, name, account, Settled(name, account, built))
  {
    hide GatewayRoutes, FirstUnusable, FirstUncallable, Credential, RoutesOf, DeclaresAny;
    GatewayRoutesAre(provider);
    DeclaresAnyIff(provider);
    UncallableIs(world, provider);
    var built := NewBackend(world, provider.name, GatewayRoutes(provider), key,
                            Named(provider.name, reference), CostOf(world, provider.name));
    if built.Made? {
      assert BackendIs(world, provider, name, account, reference, key, Settled(name, account, built).backend);
    }
  }

  /** What an account that names a provider comes to, told by the entries of the configuration: it is the first
      provider under the name it states that decides, and the first of its references to hold a credential. */
  lemma OutcomeComes(world: World, providers: seq<Provider>, name: string, account: Account)
    requires !account.brokered && account.provider.Some?
    ensures Comes(world, providers, name, account, OutcomeOf(world, providers, name, account))
  {
    hide Find, GatewayRoutes, Resolved, References, Credential, NewBackend, Settled, DeclaresAny, FirstUncallable,
      BackendIs;
    FindIsFirst(providers, account.provider.value);
    var found := Find(providers, account.provider.value);
    if found.Some? {
      var i: nat :| FirstNamed(providers, account.provider.value, i) && found.value == providers[i];
      var provider := providers[i];
      DeclaresAnyIff(provider);
      CredentialIs(world, account, provider);
      var resolved := Resolved(world, References(account, provider));
      if GatewayRoutes(provider) != [] && resolved.Some? {
        BuiltIs(world, provider, name, account, resolved.value.0, resolved.value.1);
      }
      assert ComesFrom(world, provider, name, account, OutcomeOf(world, providers, name, account));
    }
  }

  /** Everything a provider-backed account needs: an entry under the name it states, a base URL and none that cannot be
      called, and a credential a header can carry, which is the one it states or the first its provider's variables
      hold and no later one. */
  ghost predicate CanServe(
      world: World, providers: seq<Provider>, account: Account, i: nat, reference: SecretRef, key: string) {
    && account.provider.Some? && FirstNamed(providers, account.provider.value, i)
    && DeclaresAny(providers[i]) && (forall p :: !FirstUncallable(world, providers[i], p))
    && Credential(world, account, providers[i], reference, key) && world.headerSafe(key)
  }

  /** An account is served exactly when it has all that, and by nothing but the provider it names: that provider's name,
      its routes, and its key. */
  lemma ServedIff(world: World, providers: seq<Provider>, name: string, account: Account)
    requires !account.brokered
    ensures var outcome := OutcomeOf(world, providers, name, account);
            outcome.Served? <==> exists i: nat, reference, key :: CanServe(world, providers, account, i, reference, key)
    ensures var outcome := OutcomeOf(world, providers, name, account);
            outcome.Served? ==> exists i: nat, reference, key ::
              && CanServe(world, providers, account, i, reference, key)
              && outcome.backend.provider == account.provider.value
              && BackendIs(world, providers[i], name, account, reference, key, outcome.backend)
  {
    hide FirstUncallable, DeclaresAny, Credential, BackendIs;
    var outcome := OutcomeOf(world, providers, name, account);
    if account.provider.Some? {
      OutcomeComes(world, providers, name, account);
      var n := account.provider.value;
      if i: nat :| FirstNamed(providers, n, i) && ComesFrom(world, providers[i], name, account, outcome) {
        ServedFrom(world, providers, name, account, i, outcome);
      }
    }
  }

  lemma ServedFrom(
      world: World, providers: seq<Provider>, name: string, account: Account, i: nat, outcome: Outcome)
    requires account.provider.Some? && FirstNamed(providers, account.provider.value, i)
    requires ComesFrom(world, providers[i], name, account, outcome)
    ensures outcome.Served? <==> exists j: nat, reference, key :: CanServe(world, providers, account, j, reference, key)
    ensures outcome.Served? ==> exists reference, key ::
              && CanServe(world, providers, account, i, reference, key)
              && outcome.backend.provider == account.provider.value
              && BackendIs(world, providers[i], name, account, reference, key, outcome.backend)
  {
    hide FirstUncallable, DeclaresAny, Credential, RoutesOf;
    CredentialIs(world, account, providers[i]);
    if outcome.Served? {
      var reference, key :| && Credential(world, account, providers[i], reference, key) && world.headerSafe(key)
                            && BackendIs(world, providers[i], name, account, reference, key, outcome.backend);
      assert CanServe(world, providers, account, i, reference, key);
    }
    forall j: nat, reference, key | CanServe(world, providers, account, j, reference, key)
      ensures outcome.Served?
    {
      assert j == i;
      assert Credential(world, account, providers[i], reference, key);
    }
  }

  /** An account's provider is unknown exactly when no entry bears the name it states. */
  lemma UnknownProviderIff(world: World, providers: seq<Provider>, name: string, account: Account, n: string)
    ensures OutcomeOf(world, providers, name, account) == Skipped(Note(name, UnknownProvider(n)))
            <==> && !account.brokered && account.provider == Some(n)
                 && forall i :: 0 <= i < |providers| ==> providers[i].name != n
  {
    hide GatewayRoutes, Resolved, References, NewBackend, Find, SubscriptionBackend;
    if account.provider.Some? {
      FindIsFirst(providers, account.provider.value);
    }
  }

  /** The accounts that name no provider of their own. */
  lemma OthersCome(world: World, providers: seq<Provider>, name: string, account: Account)
    requires account.brokered || account.provider.None?
    ensures var outcome := OutcomeOf(world, providers, name, account);
            if !account.brokered then outcome == Skipped(Note(name, NamesNeither))
            else if world.start(name).None? then outcome == Skipped(Note(name, BrokerWouldNotStart))
            else
              var broker, url := world.start(name).value, TrimSlashes(world.start(name).value.baseUrl);
              if !world.absolute(url) then
                outcome == Skipped(Note(name, Unusable(BaseUrlNotAbsolute(AnthropicMessages))))
              else if !world.headerSafe(broker.key) then
                outcome == Skipped(Note(name, Unusable(CredentialNotHeaderSafe)))
              else
                && outcome.Served?
                && outcome.backend == Backend(
                     broker.provider,
                     [Route(AnthropicMessages, ToolsVerified, url), Route(OpenAiResponses, ToolsVerified, url),
                      Route(OpenAiChat, ToolsVerified, url), Route(GeminiGenerateContent, ToolsVerified, url)],
                     broker.key, Internal(broker.provider), Free, outcome.backend.models, Some(name))
                && forall m :: m in outcome.backend.models
                               <==> exists k :: 0 <= k < |broker.models| && Models.Normalise(broker.models[k]) == m
  {
    hide TrimSlashes, SubscriptionBackend, ModelSet;
    if account.brokered && world.start(name).Some? {
      SubscriptionIs(world, world.start(name).value);
      ModelsAre(world.start(name).value.models);
    }
  }

  lemma SubscriptionIs(world: World, broker: Broker)
    ensures var built, url := SubscriptionBackend(world, broker), TrimSlashes(broker.baseUrl);
            if !world.absolute(url) then built == Refused(BaseUrlNotAbsolute(AnthropicMessages))
            else if !world.headerSafe(broker.key) then built == Refused(CredentialNotHeaderSafe)
            else built == Made(Backend(
                     broker.provider,
                     [Route(AnthropicMessages, ToolsVerified, url), Route(OpenAiResponses, ToolsVerified, url),
                      Route(OpenAiChat, ToolsVerified, url), Route(GeminiGenerateContent, ToolsVerified, url)],
                     broker.key, Internal(broker.provider), Free, ModelSet(broker.models), None))
  {
    hide TrimSlashes, FirstUnusable, ModelSet;
    var routes, url := BrokerRoutes(broker.baseUrl), TrimSlashes(broker.baseUrl);
    FirstUnusableIs(world, routes);
    assert routes == [Route(AnthropicMessages, ToolsVerified, url), Route(OpenAiResponses, ToolsVerified, url),
                      Route(OpenAiChat, ToolsVerified, url), Route(GeminiGenerateContent, ToolsVerified, url)];
    assert world.absolute(routes[0].baseUrl) <==> world.absolute(url);
  }

  lemma ModelsAre(models: seq<string>)
    ensures forall m :: m in ModelSet(models) <==> exists k :: 0 <= k < |models| && Models.Normalise(models[k]) == m
  {
    hide Models.Normalise;
  }

  /** An account that states a credential uses that one or is not served: no other key of its provider stands in. */
  lemma StatedCredentialIsTheOnlyOne(world: World, providers: seq<Provider>, name: string, account: Account)
    requires !account.brokered && account.credential.Some?
    ensures var outcome := OutcomeOf(world, providers, name, account);
            outcome.Served? ==> && outcome.backend.credentialId.Named?
                                && outcome.backend.credentialId.reference == account.credential.value
                                && world.resolve(account.credential.value) == Some(outcome.backend.key)
  {
    hide OutcomeOf, FirstUncallable, DeclaresAny, RoutesOf;
    ServedIff(world, providers, name, account);
  }

  // ---------------------------------------------------------------- what a route may point at

  /** Nothing is forwarded to an empty base URL, although a base URL of slashes alone gets a route to one. */
  lemma NoBackendForwardsNowhere(world: World, providers: seq<Provider>, name: string, account: Account)
    requires !world.absolute("")
    ensures var outcome := OutcomeOf(world, providers, name, account);
            outcome.Served? ==> outcome.backend.routes != []
                                && forall route :: route in outcome.backend.routes ==> route.baseUrl != ""
  {
    hide GatewayRoutes, BrokerRoutes, Find, Resolved, References, FirstUnusable, TrimSlashes;
    var outcome := OutcomeOf(world, providers, name, account);
    if outcome.Served? {
      UsableIff(world, outcome.backend.routes);
    }
  }

  predicate OnlySlashes(url: string) {
    forall i :: 0 <= i < |url| ==> url[i] == '/'
  }

  lemma RouteIsEmptyIff(provider: Provider)
    ensures (exists route :: route in GatewayRoutes(provider) && route.baseUrl == "")
            <==> exists p :: DeclaredBaseUrl(provider, p).Some? && OnlySlashes(DeclaredBaseUrl(provider, p).value)
  {
    hide DeclaredBaseUrl, ToolSemantics, RoutesOver, INGRESS;
    forall p | DeclaredBaseUrl(provider, p).Some?
      ensures RouteOf(provider, p) in GatewayRoutes(provider)
    {
      EveryProtocolIsIngress(p);
      RoutesOverIff(provider, INGRESS, RouteOf(provider, p));
    }
    forall route | route in GatewayRoutes(provider)
      ensures DeclaredBaseUrl(provider, route.protocol).Some?
      ensures route.baseUrl == TrimSlashes(DeclaredBaseUrl(provider, route.protocol).value)
    {
      RoutesOverIff(provider, INGRESS, route);
    }
  }

  /** A provider that declares a slash for its base URL. */
  lemma SlashBecomesNothing()
    ensures
      var provider := Provider("p", [Support(OpenAiChat, "/", Unverified)], []);
      exists route :: route in GatewayRoutes(provider) && route.baseUrl == ""
  {
    hide GatewayRoutes;
    var provider := Provider("p", [Support(OpenAiChat, "/", Unverified)], []);
    assert DeclaredBaseUrl(provider, OpenAiChat) == Some("/");
    RouteIsEmptyIff(provider);
  }

  /** A backend carries `p` when one of its routes does. */
  predicate Carries(backend: Backend, p: Protocol) {
    exists route :: route in backend.routes && route.protocol == p
  }

  /** A broker is never given the protocol it only could relay. */
  lemma BrokersTranslateOnly(world: World, providers: seq<Provider>, name: string, account: Account)
    requires account.brokered
    ensures var outcome := OutcomeOf(world, providers, name, account);
            outcome.Served? ==> forall p :: Carries(outcome.backend, p) <==> p != TypesafeSystemOne
  {
    hide FirstUnusable, TrimSlashes;
    var outcome := OutcomeOf(world, providers, name, account);
    if outcome.Served? {
      var routes := outcome.backend.routes;
      assert routes == BrokerRoutes(world.start(name).value.baseUrl);
      forall p
        ensures Carries(outcome.backend, p) <==> p != TypesafeSystemOne
      {
        if p != TypesafeSystemOne {
          var i := match p
            case AnthropicMessages => 0
            case OpenAiResponses => 1
            case OpenAiChat => 2
            case GeminiGenerateContent => 3;
          assert routes[i] in routes && routes[i].protocol == p;
        }
      }
    }
  }

  // ---------------------------------------------------------------- which protocol a request is

  function Targets(p: Protocol): seq<string> {
    match p
    case AnthropicMessages => ["/messages"]
    case OpenAiResponses => ["/responses"]
    case OpenAiChat => ["/chat/completions"]
    case GeminiGenerateContent => ["/models", "/v1beta/models"]
    case TypesafeSystemOne => ["/systemone"]
  }

  function PathOf(target: string): string {
    if target == "" || target[0] == '?' || target[0] == '#' then "" else [target[0]] + PathOf(target[1..])
  }

  function WithoutVersion(path: string): string {
    if StartsWith(path, "/v1") && (path[3..] == "" || path[3] == '/') then path[3..] else path
  }

  predicate IsSegmentPrefix(path: string, prefix: string) {
    path == prefix || (StartsWith(path, prefix) && StartsWith(path[|prefix|..], "/"))
  }

  predicate Claims(p: Protocol, target: string) {
    exists prefix :: prefix in Targets(p) && IsSegmentPrefix(WithoutVersion(PathOf(target)), prefix)
  }

  lemma PrefixesNest(path: string, a: string, b: string)
    requires IsSegmentPrefix(path, a) && IsSegmentPrefix(path, b) && |a| <= |b|
    ensures IsSegmentPrefix(b, a)
  {
    assert forall i :: 0 <= i < |a| ==> a[i] == path[i] == b[i];
    assert b[..|a|] == a;
    if |a| < |b| {
      assert b[|a|] == path[|a|] == path[|a|..][0];
    } else {
      assert a == b;
    }
  }

  /** No request belongs to two protocols. */
  lemma OneProtocolClaims(p: Protocol, q: Protocol, target: string)
    requires Claims(p, target) && Claims(q, target)
    ensures p == q
  {
    var path := WithoutVersion(PathOf(target));
    var a :| a in Targets(p) && IsSegmentPrefix(path, a);
    var b :| b in Targets(q) && IsSegmentPrefix(path, b);
    if |a| <= |b| {
      PrefixesNest(path, a, b);
      TargetsAreApart(q, p, b, a);
    } else {
      PrefixesNest(path, b, a);
      TargetsAreApart(p, q, a, b);
    }
  }

  lemma TargetsAreApart(p: Protocol, q: Protocol, a: string, b: string)
    requires a in Targets(p) && b in Targets(q) && IsSegmentPrefix(a, b)
    ensures p == q
  {
    assert a[1] == b[1];
    assert |b| > 2 && a[2] == b[2];
  }

  /** `target` is `path`, or goes on below it or with a query or a fragment. */
  predicate IsAt(target: string, path: string) {
    && StartsWith(target, path)
    && (|target| == |path| || target[|path|] == '/' || target[|path|] == '?' || target[|path|] == '#')
  }

  /** With or without the version segment. */
  predicate Under(target: string, path: string) {
    IsAt(target, path) || IsAt(target, "/v1" + path)
  }

  lemma {:induction false} PathIs(target: string)
    ensures var path := PathOf(target);
            && StartsWith(target, path) && '?' !in path && '#' !in path
            && (|path| < |target| ==> target[|path|] == '?' || target[|path|] == '#')
  {
    if target != "" && target[0] != '?' && target[0] != '#' {
      PathIs(target[1..]);
    }
  }

  predicate NoQuery(path: string) {
    forall i :: 0 <= i < |path| ==> path[i] != '?' && path[i] != '#'
  }

  lemma AtIff(target: string, prefix: string)
    requires NoQuery(prefix)
    ensures IsSegmentPrefix(PathOf(target), prefix) <==> IsAt(target, prefix)
  {
    hide PathOf;
    PathIs(target);
    var path := PathOf(target);
    assert path == target[..|path|];
    assert StartsWith(target, prefix) ==> forall i :: 0 <= i < |prefix| ==> target[i] == prefix[i];
    assert |prefix| <= |path| ==> path[..|prefix|] == target[..|prefix|];
    assert |prefix| < |path| ==> path[|prefix|] == target[|prefix|] && path[|prefix|] in path;
  }

  /** A prefix that is no version segment. */
  predicate Plain(prefix: string) {
    NoQuery(prefix) && |prefix| > 3 && prefix[0] == '/' && prefix[3] != '/'
  }

  lemma UnderIff(target: string, prefix: string)
    requires Plain(prefix)
    ensures IsSegmentPrefix(WithoutVersion(PathOf(target)), prefix) <==> Under(target, prefix)
  {
    hide PathOf, IsSegmentPrefix, WithoutVersion, IsAt;
    AtIff(target, prefix);
    AtIff(target, "/v1" + prefix);
    VersionedIff(PathOf(target), prefix);
  }

  lemma VersionedIff(path: string, prefix: string)
    requires Plain(prefix)
    ensures IsSegmentPrefix(WithoutVersion(path), prefix)
            <==> IsSegmentPrefix(path, prefix) || IsSegmentPrefix(path, "/v1" + prefix)
  {
    hide NoQuery;
    var versioned := "/v1" + prefix;
    assert versioned[..3] == "/v1" && versioned[3..] == prefix && versioned[3] == '/';
    if StartsWith(path, "/v1") {
      assert path == "/v1" + path[3..];
      VersionedPath(path, path[3..], prefix);
    } else {
      assert |versioned| <= |path| ==> path[..|versioned|][..3] == path[..3];
    }
  }

  lemma VersionedPath(path: string, rest: string, prefix: string)
    requires Plain(prefix) && path == "/v1" + rest
    ensures IsSegmentPrefix(rest, prefix) <==> IsSegmentPrefix(path, "/v1" + prefix)
    ensures WithoutVersion(path) == if rest == "" || rest[0] == '/' then rest else path
    ensures rest == "" || rest[0] == '/' ==> !IsSegmentPrefix(path, prefix)
    ensures rest != "" && rest[0] != '/' ==> !IsSegmentPrefix(rest, prefix)
  {
    hide NoQuery;
    assert path[..3] == "/v1" && path[3..] == rest;
    var versioned := "/v1" + prefix;
    if |prefix| <= |rest| {
      assert path[..|versioned|] == "/v1" + rest[..|prefix|];
      assert path[|versioned|..] == rest[|prefix|..];
      assert rest[..|prefix|] == prefix <==> "/v1" + rest[..|prefix|] == versioned by {
        assert ("/v1" + rest[..|prefix|])[3..] == rest[..|prefix|];
        assert versioned[3..] == prefix;
      }
      assert rest[..|prefix|] == prefix ==> rest[0] == prefix[0];
    }
    if |prefix| <= |path| {
      assert path[..|prefix|] == prefix ==> path[3] == prefix[3];
      assert |path| > 3 ==> path[3] == rest[0];
    }
  }

  lemma TargetsArePlain()
    ensures Plain("/messages") && Plain("/responses") && Plain("/chat/completions")
    ensures Plain("/models") && Plain("/v1beta/models") && Plain("/systemone")
  {
  }

  /** Which request targets belong to which protocol. */
  lemma ClaimsIff(target: string)
    ensures Claims(AnthropicMessages, target) <==> Under(target, "/messages")
    ensures Claims(OpenAiResponses, target) <==> Under(target, "/responses")
    ensures Claims(OpenAiChat, target) <==> Under(target, "/chat/completions")
    ensures Claims(GeminiGenerateContent, target) <==> Under(target, "/models") || Under(target, "/v1beta/models")
    ensures Claims(TypesafeSystemOne, target) <==> Under(target, "/systemone")
  {
    hide IsSegmentPrefix, WithoutVersion, PathOf, Under, Plain;
    TargetsArePlain();
    UnderIff(target, "/messages");
    UnderIff(target, "/responses");
    UnderIff(target, "/chat/completions");
    UnderIff(target, "/models");
    UnderIff(target, "/v1beta/models");
    UnderIff(target, "/systemone");
  }

  // ---------------------------------------------------------------- which backend carries a request

  /** The built pool as a request meets it: which backend serves, which accounts are out of it and which rest. */
  datatype Upstream = Upstream(backends: seq<Backend>, serving: nat, excluded: string -> bool, resting: string -> bool)

  predicate RoutesFor(backend: Backend, target: string) {
    exists route :: route in backend.routes && Claims(route.protocol, target)
  }

  predicate InPool(u: Upstream, backend: Backend, model: string) {
    Models.Normalise(model) in backend.models && !u.excluded(AccountOf(backend))
  }

  function Members(u: Upstream, backends: seq<Backend>, model: string): seq<Backend> {
    if backends == [] then []
    else (if InPool(u, backends[0], model) then [backends[0]] else []) + Members(u, backends[1..], model)
  }

  function Rested(u: Upstream, pool: seq<Backend>): Option<Backend> {
    if pool == [] then None
    else if !u.resting(AccountOf(pool[0])) then Some(pool[0])
    else Rested(u, pool[1..])
  }

  function ForModel(u: Upstream, model: string): Option<Backend> {
    var pool := Members(u, u.backends, model);
    if pool == [] then None
    else if Rested(u, pool).Some? then Rested(u, pool)
    else Some(pool[0])
  }

  function ServingFor(u: Upstream, model: Option<string>): Backend
    requires u.serving < |u.backends|
  {
    if model.Some? && ForModel(u, model.value).Some? then ForModel(u, model.value).value else u.backends[u.serving]
  }

  function Claimants(backends: seq<Backend>, target: string): seq<Backend> {
    if backends == [] then []
    else
      var last := backends[|backends| - 1];
      Claimants(backends[..|backends| - 1], target) + if RoutesFor(last, target) then [last] else []
  }

  function ServingForTarget(u: Upstream, model: Option<string>, target: string): Backend
    requires u.serving < |u.backends|
  {
    var chosen := ServingFor(u, model);
    var claimants := Claimants(u.backends, target);
    if !RoutesFor(chosen, target) && |claimants| == 1 then claimants[0] else chosen
  }

  lemma {:induction false} MembersAre(u: Upstream, backends: seq<Backend>, model: string, backend: Backend)
    ensures backend in Members(u, backends, model) <==> backend in backends && InPool(u, backend, model)
  {
    hide InPool;
    if backends != [] {
      MembersAre(u, backends[1..], model, backend);
      assert backend in backends <==> backend == backends[0] || backend in backends[1..];
    }
  }

  lemma {:induction false} RestedIs(u: Upstream, pool: seq<Backend>)
    ensures var r := Rested(u, pool);
            if r.Some? then r.value in pool && !u.resting(AccountOf(r.value))
            else forall b :: b in pool ==> u.resting(AccountOf(b))
  {
    if pool != [] {
      RestedIs(u, pool[1..]);
      assert forall b :: b in pool <==> b == pool[0] || b in pool[1..];
    }
  }

  /** An account of the model's pool, and when `rested` one that does not rest. */
  predicate Fits(u: Upstream, backend: Backend, model: string, rested: bool) {
    InPool(u, backend, model) && (rested ==> !u.resting(AccountOf(backend)))
  }

  ghost predicate FirstFit(u: Upstream, backends: seq<Backend>, model: string, rested: bool, backend: Backend) {
    exists i :: 0 <= i < |backends| && backends[i] == backend && Fits(u, backend, model, rested)
                && forall j :: 0 <= j < i ==> !Fits(u, backends[j], model, rested)
  }

  lemma FirstFitGrows(u: Upstream, backends: seq<Backend>, model: string, rested: bool, backend: Backend)
    requires backends != []
    ensures Fits(u, backends[0], model, rested) ==> FirstFit(u, backends, model, rested, backends[0])
    ensures !Fits(u, backends[0], model, rested) && FirstFit(u, backends[1..], model, rested, backend)
            ==> FirstFit(u, backends, model, rested, backend)
  {
    hide Fits;
    if !Fits(u, backends[0], model, rested) && FirstFit(u, backends[1..], model, rested, backend) {
      var i :| 0 <= i < |backends[1..]| && backends[1..][i] == backend && Fits(u, backend, model, rested)
               && forall j :: 0 <= j < i ==> !Fits(u, backends[1..][j], model, rested);
      forall j | 0 <= j < i + 1
        ensures !Fits(u, backends[j], model, rested)
      {
        assert j > 0 ==> backends[j] == backends[1..][j - 1];
      }
      assert backends[i + 1] == backend;
    }
  }

  lemma {:induction false} FirstIsFound(u: Upstream, backends: seq<Backend>, model: string)
    ensures var pool := Members(u, backends, model);
            pool != [] ==> FirstFit(u, backends, model, false, pool[0])
  {
    hide InPool, AccountOf, FirstFit;
    if backends != [] {
      FirstIsFound(u, backends[1..], model);
      var pool := Members(u, backends[1..], model);
      FirstFitGrows(u, backends, model, false, if pool != [] then pool[0] else backends[0]);
    }
  }

  lemma {:induction false} FirstRestedIsFound(u: Upstream, backends: seq<Backend>, model: string)
    ensures var pool := Members(u, backends, model);
            Rested(u, pool).Some? ==> FirstFit(u, backends, model, true, Rested(u, pool).value)
  {
    hide InPool, AccountOf, FirstFit;
    if backends != [] {
      FirstRestedIsFound(u, backends[1..], model);
      var pool := Members(u, backends[1..], model);
      FirstFitGrows(u, backends, model, true, if Rested(u, pool).Some? then Rested(u, pool).value else backends[0]);
      if InPool(u, backends[0], model) {
        assert ([backends[0]] + pool)[1..] == pool;
      } else {
        assert Members(u, backends, model) == pool;
      }
    }
  }

  lemma ForModelFits(u: Upstream, model: string)
    ensures ForModel(u, model).None? <==> forall b :: b in u.backends ==> !InPool(u, b, model)
    ensures var chosen := ForModel(u, model);
            chosen.Some? ==> if exists b :: b in u.backends && Fits(u, b, model, true)
                             then FirstFit(u, u.backends, model, true, chosen.value)
                             else FirstFit(u, u.backends, model, false, chosen.value)
  {
    hide InPool, AccountOf, Members, Rested, FirstFit;
    var pool := Members(u, u.backends, model);
    RestedIs(u, pool);
    FirstIsFound(u, u.backends, model);
    FirstRestedIsFound(u, u.backends, model);
    forall b
      ensures b in pool <==> b in u.backends && InPool(u, b, model)
    {
      MembersAre(u, u.backends, model, b);
    }
    if pool != [] {
      assert pool[0] in pool;
    }
  }

  /** Backend `i` lists the model, spelled in whatever way, and its account is not excluded. */
  predicate MayCarry(u: Upstream, i: nat, model: string) {
    && i < |u.backends| && Models.Normalise(model) in u.backends[i].models
    && !u.excluded(match u.backends[i].account case Some(name) => name case None => u.backends[i].provider)
  }

  predicate Rests(u: Upstream, i: nat) {
    && i < |u.backends|
    && u.resting(match u.backends[i].account case Some(name) => name case None => u.backends[i].provider)
  }

  /** A model is carried by the first backend that may and does not rest, by the first that may when all of them rest,
      and by none where none may. */
  ghost predicate CarriesModel(u: Upstream, i: nat, model: string) {
    && MayCarry(u, i, model)
    && if Rests(u, i) then forall j: nat :: MayCarry(u, j, model) ==> Rests(u, j) && i <= j
       else forall j: nat :: MayCarry(u, j, model) && j < i ==> Rests(u, j)
  }

  lemma ModelStaysInItsPool(u: Upstream, model: string)
    ensures ForModel(u, model).None? ==> forall i: nat :: !MayCarry(u, i, model)
    ensures ForModel(u, model).Some? ==>
              exists i: nat :: CarriesModel(u, i, model) && ForModel(u, model) == Some(u.backends[i])
  {
    hide ForModel, Fits, InPool, CarriesModel;
    ForModelFits(u, model);
    var chosen := ForModel(u, model);
    if chosen.Some? {
      var rested := exists b :: b in u.backends && Fits(u, b, model, true);
      var i: nat :| i < |u.backends| && u.backends[i] == chosen.value && Fits(u, chosen.value, model, rested)
                    && forall j :: 0 <= j < i ==> !Fits(u, u.backends[j], model, rested);
      FirstFitCarries(u, model, rested, i);
    } else {
      forall i: nat | i < |u.backends|
        ensures !MayCarry(u, i, model)
      {
        FitsIff(u, i, model);
      }
    }
  }

  lemma FirstFitCarries(u: Upstream, model: string, rested: bool, i: nat)
    requires i < |u.backends| && Fits(u, u.backends[i], model, rested)
    requires forall j :: 0 <= j < i ==> !Fits(u, u.backends[j], model, rested)
    requires rested || forall b :: b in u.backends ==> !Fits(u, b, model, true)
    ensures i < |u.backends| && CarriesModel(u, i, model)
  {
    hide Fits, MayCarry, Rests, InPool;
    forall j: nat | j < |u.backends|
      ensures Fits(u, u.backends[j], model, true) <==> MayCarry(u, j, model) && !Rests(u, j)
      ensures Fits(u, u.backends[j], model, false) <==> MayCarry(u, j, model)
      ensures !rested ==> !Fits(u, u.backends[j], model, true)
    {
      FitsIff(u, j, model);
      assert u.backends[j] in u.backends;
    }
    OnlyBackendsCarry(u, model);
  }

  lemma OnlyBackendsCarry(u: Upstream, model: string)
    ensures forall j: nat :: MayCarry(u, j, model) ==> j < |u.backends|
  {
  }

  lemma FitsIff(u: Upstream, i: nat, model: string)
    requires i < |u.backends|
    ensures InPool(u, u.backends[i], model) <==> MayCarry(u, i, model)
    ensures Fits(u, u.backends[i], model, true) <==> MayCarry(u, i, model) && !Rests(u, i)
    ensures Fits(u, u.backends[i], model, false) <==> MayCarry(u, i, model)
  {
  }

  lemma {:induction false} ClaimantsAre(backends: seq<Backend>, target: string, backend: Backend)
    ensures backend in Claimants(backends, target) <==> backend in backends && RoutesFor(backend, target)
  {
    hide RoutesFor;
    if backends != [] {
      ClaimantsAre(backends[..|backends| - 1], target, backend);
      assert backend in backends <==> backend == backends[|backends| - 1] || backend in backends[..|backends| - 1];
    }
  }

  lemma {:induction false} OnlyOneClaims(backends: seq<Backend>, target: string, d: nat)
    requires d < |backends| && RoutesFor(backends[d], target)
    requires forall k :: 0 <= k < |backends| && k != d ==> !RoutesFor(backends[k], target)
    ensures Claimants(backends, target) == [backends[d]]
  {
    hide RoutesFor;
    var n := |backends| - 1;
    if d == n {
      NoClaimants(backends[..n], target);
    } else {
      OnlyOneClaims(backends[..n], target, d);
    }
  }

  lemma {:induction false} NoClaimants(backends: seq<Backend>, target: string)
    requires forall k :: 0 <= k < |backends| ==> !RoutesFor(backends[k], target)
    ensures Claimants(backends, target) == []
  {
    hide RoutesFor;
    if backends != [] {
      NoClaimants(backends[..|backends| - 1], target);
    }
  }

  lemma {:induction false} SeveralClaimants(backends: seq<Backend>, target: string, j: nat, k: nat)
    requires j < k < |backends| && RoutesFor(backends[j], target) && RoutesFor(backends[k], target)
    ensures |Claimants(backends, target)| > 1
  {
    hide RoutesFor;
    var rest := backends[..|backends| - 1];
    if k < |rest| {
      SeveralClaimants(rest, target, j, k);
    } else {
      ClaimantsAre(rest, target, backends[j]);
      assert rest[j] in rest;
    }
  }

  /** The only one of the backends to have a route for a target. */
  predicate IsOnly(backends: seq<Backend>, target: string, d: nat) {
    && d < |backends| && RoutesFor(backends[d], target)
    && forall k :: 0 <= k < |backends| && k != d ==> !RoutesFor(backends[k], target)
  }

  lemma NotOneClaimant(backends: seq<Backend>, target: string)
    requires forall d: nat :: !IsOnly(backends, target, d)
    ensures |Claimants(backends, target)| != 1
  {
    hide RoutesFor, Claimants;
    if j: nat :| j < |backends| && RoutesFor(backends[j], target) {
      assert !IsOnly(backends, target, j);
      var k: nat :| k < |backends| && k != j && RoutesFor(backends[k], target);
      if j < k {
        SeveralClaimants(backends, target, j, k);
      } else {
        SeveralClaimants(backends, target, k, j);
      }
    } else {
      NoClaimants(backends, target);
    }
  }

  /** A request that only one backend has a route for is carried by that backend, whatever it asks for. */
  lemma OnlyClaimantServes(u: Upstream, model: Option<string>, target: string, only: Backend)
    requires u.serving < |u.backends| && Claimants(u.backends, target) == [only]
    ensures ServingForTarget(u, model, target) == only
  {
    hide RoutesFor, Claimants, ServingFor;
    ServingIsThere(u, model);
    ClaimantsAre(u.backends, target, ServingFor(u, model));
  }

  lemma ServingIsThere(u: Upstream, model: Option<string>)
    requires u.serving < |u.backends|
    ensures ServingFor(u, model) in u.backends
  {
    hide ForModel, Models.Normalise;
    if model.Some? {
      ModelStaysInItsPool(u, model.value);
      if ForModel(u, model.value).Some? {
        var i: nat :| CarriesModel(u, i, model.value) && ForModel(u, model.value) == Some(u.backends[i]);
        assert u.backends[i] in u.backends;
      }
    }
  }

  /** Who carries a request: the only backend with a route for its target if there is one, and otherwise the one chosen
      for its model, or the serving one when no account is in the model's pool. */
  lemma WhoCarries(u: Upstream, model: Option<string>, target: string)
    requires u.serving < |u.backends|
    ensures model.None? || ForModel(u, model.value).None? ==> ServingFor(u, model) == u.backends[u.serving]
    ensures model.Some? && ForModel(u, model.value).Some? ==> ForModel(u, model.value) == Some(ServingFor(u, model))
    ensures forall d: nat :: IsOnly(u.backends, target, d) ==> ServingForTarget(u, model, target) == u.backends[d]
    ensures (forall d: nat :: !IsOnly(u.backends, target, d))
            ==> ServingForTarget(u, model, target) == ServingFor(u, model)
  {
    hide RoutesFor, Claimants, ForModel;
    forall d: nat | IsOnly(u.backends, target, d)
      ensures ServingForTarget(u, model, target) == u.backends[d]
    {
      OnlyOneClaims(u.backends, target, d);
      OnlyClaimantServes(u, model, target, u.backends[d]);
    }
    if forall d: nat :: !IsOnly(u.backends, target, d) {
      NotOneClaimant(u.backends, target);
    }
  }

  // ---------------------------------------------------------------- a relayed request reaches its account

  /** No decision request can be meant for the account. */
  ghost predicate DoesNotDecide(providers: seq<Provider>, account: Account) {
    || account.brokered
    || account.provider.None?
    || (forall i: nat, k: nat :: FirstNamed(providers, account.provider.value, i)
                                 ==> !Declares(providers[i], TypesafeSystemOne, k))
  }

  lemma DeciderIsDeclared(world: World, providers: seq<Provider>, name: string, account: Account)
    requires OutcomeOf(world, providers, name, account).Served?
    requires DoesNotDecide(providers, account)
    ensures !Carries(OutcomeOf(world, providers, name, account).backend, TypesafeSystemOne)
  {
    hide GatewayRoutes, Find, Resolved, References, FirstUnusable, DeclaredBaseUrl, SubscriptionBackend, Carries;
    if account.brokered {
      BrokersTranslateOnly(world, providers, name, account);
    } else {
      FindIsFirst(providers, account.provider.value);
      DeclaredIff(Find(providers, account.provider.value).value, TypesafeSystemOne);
      RouteIffDeclared(Find(providers, account.provider.value).value, TypesafeSystemOne);
      NothingCarried(OutcomeOf(world, providers, name, account).backend, TypesafeSystemOne);
    }
  }

  lemma NothingCarried(backend: Backend, p: Protocol)
    requires forall route :: route in backend.routes ==> route.protocol != p
    ensures !Carries(backend, p)
  {
  }

  lemma RoutesForIff(backend: Backend, p: Protocol, target: string)
    requires Claims(p, target)
    ensures RoutesFor(backend, target) <==> Carries(backend, p)
  {
    hide Claims;
    forall route | route in backend.routes && Claims(route.protocol, target)
      ensures route.protocol == p
    {
      OneProtocolClaims(route.protocol, p, target);
    }
  }

  /** With one account whose provider decides, every decision request is carried by that account's backend: no broker
      claims it, and neither the model it names, nor the serving backend, nor a rest or an exclusion sends it
      elsewhere. */
  lemma {:induction false} DecisionsReachTheirAccount(
      world: World, providers: seq<Provider>, accounts: Catalogue, d: nat, u: Upstream, model: Option<string>,
      target: string)
    requires d < |accounts| && OutcomeOf(world, providers, accounts[d].0, accounts[d].1).Served?
    requires Carries(OutcomeOf(world, providers, accounts[d].0, accounts[d].1).backend, TypesafeSystemOne)
    requires forall k :: 0 <= k < |accounts| && k != d ==> DoesNotDecide(providers, accounts[k].1)
    requires u.backends == ServedOf(world, providers, accounts) && u.serving < |u.backends|
    requires Claims(TypesafeSystemOne, target)
    ensures ServingForTarget(u, model, target) == OutcomeOf(world, providers, accounts[d].0, accounts[d].1).backend
  {
    hide *;
    OnlyDeciderClaims(world, providers, accounts, d, target);
    OnlyClaimantServes(u, model, target, OutcomeOf(world, providers, accounts[d].0, accounts[d].1).backend);
  }

  lemma {:induction false} OnlyDeciderClaims(
      world: World, providers: seq<Provider>, accounts: Catalogue, d: nat, target: string)
    requires d < |accounts| ==>
      var outcome := OutcomeOf(world, providers, accounts[d].0, accounts[d].1);
      outcome.Served? && Carries(outcome.backend, TypesafeSystemOne)
    requires forall k :: 0 <= k < |accounts| && k != d ==> DoesNotDecide(providers, accounts[k].1)
    requires Claims(TypesafeSystemOne, target)
    ensures Claimants(ServedOf(world, providers, accounts), target)
            == if d < |accounts| then [OutcomeOf(world, providers, accounts[d].0, accounts[d].1).backend] else []
  {
    hide OutcomeOf, Carries, DoesNotDecide, Claims, RoutesFor;
    if accounts != [] {
      var n := |accounts| - 1;
      var rest, last := accounts[..n], accounts[n];
      OnlyDeciderClaims(world, providers, rest, d, target);
      var outcome := OutcomeOf(world, providers, last.0, last.1);
      var before := ServedOf(world, providers, rest);
      if outcome.Skipped? {
        assert ServedOf(world, providers, accounts) == before;
      } else {
        var more := before + [outcome.backend];
        assert ServedOf(world, providers, accounts) == more;
        assert more[..|more| - 1] == before;
        RoutesForIff(outcome.backend, TypesafeSystemOne, target);
        if n != d {
          DeciderIsDeclared(world, providers, last.0, last.1);
        }
      }
    }
  }
}
