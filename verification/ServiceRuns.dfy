/**
  Runs of the whole service: client registrations, unregister calls and deaths beside the store
  operations, from a start whose cleanup ran first.
 */
module ServiceRuns {
  import opened Wrappers
  import opened Paths
  import opened FileCopy
  import opened RecordStore
  import opened FontStore
  import opened StoreInvariants
  import opened InstallTheorems
  import opened UninstallTheorems
  import opened StoreRuns
  import opened VersionRuns
  import opened ScopeRuns
  import opened LiveRuns
  import opened ClientRegistry

  datatype Service = Service(world: World, registry: Registry)

  /** The environment, with the account each token belongs to; negative if the account query fails. */
  datatype Platform = Platform(env: Env, userOf: int -> int)

  datatype Request =
    | OnFontObserver(tokenId: int, bundleName: string, observer: Observer)
    | OffFontObserver(tokenId: int, io: Io)
    | ClientDied(tokenId: int, io: Io)
    | InstallScopeFontRequest(tokenId: int, scope: int, srcPath: string, bundleName: string,
                              src: Source, stamp: Stamp, io: Io)
    | StoreRequest(call: Call)

  /** The checks of InstallScopeFontInner before it reaches the font manager. */
  function GateScopeInstall(r: Registry, p: Platform, tokenId: int, scope: int, bundleName: string): int
  {
    if scope != FONT_SCOPE_APP && scope != FONT_SCOPE_SESSION then ERR_INVALID_PARAM
    else if p.userOf(tokenId) < 0 then ERR_SYSTEM_ERROR
    else if scope == FONT_SCOPE_APP && tokenId !in r.clients then ERR_SCOPE_FONT_NOT_REGISTERED
    else if bundleName == "" then ERR_SYSTEM_ERROR
    else ERR_OK
  }

  /** What a scope install needs to reach the store: a session install needs no registration. */
  lemma GateExact(s: Service, p: Platform, t: int, scope: int, srcPath: string, bundle: string, src: Source,
                  stamp: Stamp, io: Io)
    ensures CallOf(s, p, InstallScopeFontRequest(t, scope, srcPath, bundle, src, stamp, io))
            == if p.userOf(t) >= 0 && bundle != "" && (scope == 1 || (scope == 0 && t in s.registry.clients))
               then Some(InstallScope(p.userOf(t), scope, srcPath, bundle, t, src, stamp, io)) else None
    ensures var gate := GateScopeInstall(s.registry, p, t, scope, bundle);
            && (gate == ERR_INVALID_PARAM <==> scope !in {0, 1})
            && (gate == ERR_SCOPE_FONT_NOT_REGISTERED <==> scope == 0 && p.userOf(t) >= 0 && t !in s.registry.clients)
            && gate in {ERR_OK, ERR_INVALID_PARAM, ERR_SCOPE_FONT_NOT_REGISTERED, ERR_SYSTEM_ERROR}
  {
  }

  /** The store operation a request leads to, if any. */
  function CallOf(s: Service, p: Platform, req: Request): Option<Call>
  {
    match req
    case OnFontObserver(_, _, _) => None
    case OffFontObserver(t, io) => RemovalCall(s.registry, t, io)
    case ClientDied(t, io) => RemovalCall(s.registry, t, io)
    case InstallScopeFontRequest(t, scope, srcPath, bundle, src, stamp, io) =>
      if GateScopeInstall(s.registry, p, t, scope, bundle) != ERR_OK then None
      else Some(InstallScope(p.userOf(t), scope, srcPath, bundle, t, src, stamp, io))
    case StoreRequest(call) => Some(call)
  }

  function RemovalCall(r: Registry, tokenId: int, io: Io): Option<Call>
  {
    if tokenId in r.clients && r.clients[tokenId].userId >= 0
    then Some(CleanupApp(r.clients[tokenId].userId, tokenId, io)) else None
  }

  function Serve(s: Service, p: Platform, req: Request): Service
  {
    var call := CallOf(s, p, req);
    var world := if call.Some? then Apply(s.world, p.env, call.value).1 else s.world;
    var registry := match req
      case OnFontObserver(t, bundle, observer) => Register(s.registry, observer, bundle, p.userOf(t), t).1
      case OffFontObserver(t, _) => Erase(s.registry, t)
      case ClientDied(t, _) => Erase(s.registry, t)
      case _ => s.registry;
    Service(world, registry)
  }

  /** Scope installs come through the gate only. */
  ghost predicate Regular(s: Service, p: Platform, req: Request)
  {
    && (CallOf(s, p, req).Some? ==> Admissible(s.world, CallOf(s, p, req).value))
    && (req.StoreRequest? ==> !req.call.InstallScope?)
  }

  predicate Leaves(req: Request)
  {
    req.OffFontObserver? || req.ClientDied?
  }

  /** A leaving client's cleanup can write the config for each of its records. */
  predicate CleansUp(s: Service, p: Platform, req: Request)
  {
    Leaves(req) && CallOf(s, p, req).Some? ==>
      CleanupWritesHold(s.world, CallOf(s, p, req).value.user, ByApp(MakeAppIdentifier(FONT_SCOPE_APP, req.tokenId)), req.io)
  }

  ghost predicate OwnerRegistered(r: Registry, u: int, it: Item)
  {
    exists t: int :: t in ClientsOf(r.clients, u) && it.appId == Some(MakeAppIdentifier(FONT_SCOPE_APP, t))
  }

  /** Every app-scope record belongs to a client of that user that is registered now. */
  ghost predicate AppRecordsOwned(s: Service)
  {
    forall u: int, it: Item :: u >= 0 && it in Items(s.world, u) && Matches(it, AppScope) ==>
      OwnerRegistered(s.registry, u, it)
  }

  ghost predicate UsersConsistent(r: Registry, p: Platform)
  {
    forall t: int :: t in r.clients ==> r.clients[t].userId == p.userOf(t)
  }

  ghost predicate BaseInv(s: Service, p: Platform)
  {
    && WorldInv(s.world, GetMaxInstallNum(p.env))
    && IndexesAgree(s.registry)
    && UsersConsistent(s.registry, p)
  }

  ghost predicate ServiceInv(s: Service, p: Platform)
  {
    BaseInv(s, p) && AppRecordsOwned(s)
  }

  lemma WorldStep(s: Service, p: Platform, req: Request)
    requires WorldInv(s.world, GetMaxInstallNum(p.env)) && Regular(s, p, req)
    ensures WorldInv(Serve(s, p, req).world, GetMaxInstallNum(p.env))
  {
    hide WorldInv, Apply, Admissible, CallOf, Register, Erase;
    var call := CallOf(s, p, req);
    if call.Some? {
      OneUserPerCall(s.world, p.env, call.value);
      ApplyKeepsConfigInv(s.world, p.env, call.value);
      InvOfOneUser(s.world, Apply(s.world, p.env, call.value).1, call.value.user, GetMaxInstallNum(p.env));
    }
  }

  lemma RegistryStep(s: Service, p: Platform, req: Request)
    requires IndexesAgree(s.registry) && UsersConsistent(s.registry, p)
    ensures IndexesAgree(Serve(s, p, req).registry) && UsersConsistent(Serve(s, p, req).registry, p)
  {
    hide IndexesAgree, Apply, CallOf, Register, Erase, MakeAppIdentifier;
    match req {
      case OnFontObserver(t, bundle, observer) =>
        RegisterKeepsValid(s.registry, observer, bundle, p.userOf(t), t);
        RegisterClients(s.registry, observer, bundle, p.userOf(t), t);
      case OffFontObserver(t, _) => EraseKeepsValid(s.registry, t);
      case ClientDied(t, _) => EraseKeepsValid(s.registry, t);
      case _ =>
    }
  }

  // ----- What a request does to the app-scope records of one user -----

  /** The app-scope records of user u after the request are old ones, or the new one of its token. */
  ghost predicate AppRecordsStep(s: Service, p: Platform, req: Request, u: int)
  {
    forall it: Item :: it in Items(Serve(s, p, req).world, u) && Matches(it, AppScope) ==>
      || it in Items(s.world, u)
      || (req.InstallScopeFontRequest? && p.userOf(req.tokenId) == u && req.tokenId in s.registry.clients
          && it.appId == Some(MakeAppIdentifier(FONT_SCOPE_APP, req.tokenId)))
  }

  lemma InstallAppRecords(s: Service, p: Platform, req: Request)
    requires req.InstallScopeFontRequest? && CallOf(s, p, req).Some?
    requires WorldInv(s.world, GetMaxInstallNum(p.env)) && Regular(s, p, req)
    ensures AppRecordsStep(s, p, req, p.userOf(req.tokenId))
  {
    hide WorldInv, Fresh, InstallDir, ScopeFontPath, DestName, MakeAppIdentifier, IsAppIdentifier, InstallScopeFont,
        ConfigInv, EnsureConfig, ScopeInstallGoesThrough, AgreeBut;
    var u := p.userOf(req.tokenId);
    var info := InfoOf(req.scope, req.srcPath, req.bundleName, req.tokenId);
    AppIdentifierIs(req.scope, req.tokenId);
    EnsuredInvOfWorld(s.world, u, GetMaxInstallNum(p.env));
    InstallScopeExact(s.world, p.env, u, info, req.src, req.stamp, req.io);
    ScopeItemMembers(info, FullNamesByFd(p.env, req.src.content), DestName(req.stamp, req.src));
  }

  lemma EnsuredInvOfWorld(w: World, u: int, max: int)
    requires WorldInv(w, max) && max >= 0
    ensures ConfigInv(ConfigOf(EnsureConfig(w, u), u), max)
  {
    hide ConfigInv;
    EnsuredInv(w, u, max);
  }

  lemma ScopeItemMembers(info: ScopeInstall, names: seq<string>, name: string)
    requires info.scope >= 0
    ensures var x := ConstructScopeItem(ScopeRecord(info, names, name));
            x.scope == Some(info.scope) && (info.appIdentifier != "" ==> x.appId == Some(info.appIdentifier))
    ensures forall scope, token :: scope == FONT_SCOPE_APP || scope == FONT_SCOPE_SESSION ==>
              MakeAppIdentifier(scope, token) != ""
  {
    hide ScopeFontPath, ToString;
  }

  lemma OtherAppRecords(s: Service, p: Platform, req: Request, u: int)
    requires Regular(s, p, req) && WorldInv(s.world, GetMaxInstallNum(p.env))
    requires req.InstallScopeFontRequest? && CallOf(s, p, req).Some? ==> u != p.userOf(req.tokenId)
    ensures AppRecordsStep(s, p, req, u)
  {
    hide Apply, Admissible, OnlyUser, MakeAppIdentifier, Register, Erase, KeepsScope, VersionInv, ConfigOf, WorldInv;
    var call := CallOf(s, p, req);
    if call.Some? {
      OneUserPerCall(s.world, p.env, call.value);
      var w2 := Apply(s.world, p.env, call.value).1;
      if u == call.value.user {
        CurrentWorld(s.world, u, GetMaxInstallNum(p.env));
        ApplyKeepsScope(s.world, p.env, call.value);
        ScopeItemsKept(ConfigOf(s.world, u), ConfigOf(w2, u));
      } else {
        OtherConfig(s.world, w2, call.value.user, u);
      }
    }
  }

  lemma CurrentWorld(w: World, u: int, max: int)
    requires WorldInv(w, max)
    ensures VersionInv(ConfigOf(w, u))
  {
    hide RecordsInv;
    CurrentIsVersionInv(ConfigOf(w, u));
  }

  lemma ScopeItemsKept(f: ConfigFile, g: ConfigFile)
    requires KeepsScope(f, g)
    ensures forall it: Item :: it in ItemsOf(g) && Matches(it, AnyScope) ==> it in ItemsOf(f)
  {
    hide VersionInv;
  }

  /** A leaving client takes all its app-scope records along exactly when its cleanup's writes succeed. */
  lemma RemovalClears(s: Service, p: Platform, req: Request)
    requires Leaves(req) && BaseInv(s, p) && CallOf(s, p, req).Some?
    ensures var app := MakeAppIdentifier(FONT_SCOPE_APP, req.tokenId);
            (forall it :: it in Items(Serve(s, p, req).world, CallOf(s, p, req).value.user) ==> it.appId != Some(app))
            <==> CleansUp(s, p, req)
  {
    hide CleanupAppScopeFonts, MakeAppIdentifier, CleanupWritesHold, BaseInv, Register, Erase;
    var user := CallOf(s, p, req).value.user;
    var app := MakeAppIdentifier(FONT_SCOPE_APP, req.tokenId);
    assert CallOf(s, p, req).value == CleanupApp(user, req.tokenId, req.io);
    assert Serve(s, p, req).world == CleanupAppScopeFonts(s.world, user, app, req.io);
    AppCleared(s.world, p.env, user, app, req.io) by { WorldOf(s, p); }
  }

  lemma WorldOf(s: Service, p: Platform)
    requires BaseInv(s, p)
    ensures WorldInv(s.world, GetMaxInstallNum(p.env))
  {
  }

  lemma AppCleared(w: World, env: Env, u: int, app: string, io: Io)
    requires WorldInv(w, GetMaxInstallNum(env))
    ensures (forall it :: it in Items(CleanupAppScopeFonts(w, u, app, io), u) ==> it.appId != Some(app))
            <==> CleanupWritesHold(w, u, ByApp(app), io)
  {
    assert forall it :: Matches(it, ByApp(app)) <==> it.appId == Some(app);
    hide RemoveTree, Cleanup, ConfigInv, InstallDir, Matches, CleanupWritesHold;
    assert Items(CleanupAppScopeFonts(w, u, app, io), u) == Items(Cleanup(w, u, ByApp(app), io), u);
    if u in w.configs {
      CleanupCompletesExactly(w, u, ByApp(app), io, GetMaxInstallNum(env));
    } else {
      NothingToClean(w, u, ByApp(app), io);
    }
  }

  lemma NothingToClean(w: World, u: int, key: Key, io: Io)
    requires u !in w.configs
    ensures CleanupWritesHold(w, u, key, io) && Items(Cleanup(w, u, key, io), u) == []
  {
  }

  /** Every request keeps each user's app-scope records owned by registered clients. */
  lemma OwnedStep(s: Service, p: Platform, req: Request, u: int, it: Item)
    requires ServiceInv(s, p) && Regular(s, p, req) && CleansUp(s, p, req)
    requires u >= 0 && it in Items(Serve(s, p, req).world, u) && Matches(it, AppScope)
    ensures OwnerRegistered(Serve(s, p, req).registry, u, it)
  {
    hide WorldInv, IndexesAgree, CallOf, Apply, Admissible, MakeAppIdentifier, Register, Erase;
    var next := Serve(s, p, req);
    AppRecordsHere(s, p, req, u);
    if it in Items(s.world, u) {
      var t: int :| t in ClientsOf(s.registry.clients, u) && it.appId == Some(MakeAppIdentifier(FONT_SCOPE_APP, t));
      if req.OnFontObserver? {
        RegisterClients(s.registry, req.observer, req.bundleName, p.userOf(req.tokenId), req.tokenId);
      } else if req.OffFontObserver? || req.ClientDied? {
        EraseClients(s.registry, req.tokenId);
        if t == req.tokenId {
          RemovalCalled(s, p, req);
          RemovalClears(s, p, req);
        }
      }
      assert t in ClientsOf(next.registry.clients, u);
    } else {
      assert req.tokenId in ClientsOf(next.registry.clients, u);
    }
  }

  lemma AppRecordsHere(s: Service, p: Platform, req: Request, u: int)
    requires ServiceInv(s, p) && Regular(s, p, req)
    ensures AppRecordsStep(s, p, req, u)
  {
    hide AppRecordsStep, WorldInv, IndexesAgree, Serve, UsersConsistent, AppRecordsOwned, Regular;
    if req.InstallScopeFontRequest? && CallOf(s, p, req).Some? && u == p.userOf(req.tokenId) {
      InstallAppRecords(s, p, req);
    } else {
      OtherAppRecords(s, p, req, u);
    }
  }

  lemma RemovalCalled(s: Service, p: Platform, req: Request)
    requires req.OffFontObserver? || req.ClientDied?
    requires req.tokenId in s.registry.clients && s.registry.clients[req.tokenId].userId >= 0
    ensures CallOf(s, p, req) == Some(CleanupApp(s.registry.clients[req.tokenId].userId, req.tokenId, req.io))
  {
  }

  /** A record that a failing cleanup leaves behind belongs to nobody. */
  lemma LeftBehind(s: Service, p: Platform, req: Request)
    requires ServiceInv(s, p) && Regular(s, p, req) && !CleansUp(s, p, req)
    requires BaseInv(Serve(s, p, req), p)
    ensures !AppRecordsOwned(Serve(s, p, req))
  {
    var u, app := CallOf(s, p, req).value.user, MakeAppIdentifier(FONT_SCOPE_APP, req.tokenId);
    var next := Serve(s, p, req);
    assert u >= 0 && next.registry == Erase(s.registry, req.tokenId);
    hide Serve, CallOf, MakeAppIdentifier, WorldInv, Erase, OwnerRegistered, CleansUp;
    RemovalClears(s, p, req);
    EraseClients(s.registry, req.tokenId);
    var it :| it in Items(next.world, u) && it.appId == Some(app);
    WorldItemOk(next.world, u, it, GetMaxInstallNum(p.env));
    IsAppRecord(it, req.tokenId);
    NotOwned(next.registry, u, it, req.tokenId);
  }

  lemma WorldItemOk(w: World, u: int, it: Item, max: int)
    requires WorldInv(w, max) && it in Items(w, u)
    ensures ItemOk(it)
  {
    hide ItemOk, Apart;
  }

  lemma IsAppRecord(it: Item, tokenId: int)
    requires ItemOk(it) && it.appId == Some(MakeAppIdentifier(FONT_SCOPE_APP, tokenId))
    ensures Matches(it, AppScope)
  {
    hide MakeAppIdentifier, IsFontName, GetFileName, UserFontPath, ScopeFontPath;
    var t :| it.appId.value == MakeAppIdentifier(it.scope.value, t);
    MakeAppIdentifierInjective(it.scope.value, t, FONT_SCOPE_APP, tokenId);
  }

  /** Under every fault: a request keeps the app-scope records owned exactly if it is no leaving with a failing cleanup. */
  lemma ServeKeepsInv(s: Service, p: Platform, req: Request)
    requires ServiceInv(s, p) && Regular(s, p, req)
    ensures BaseInv(Serve(s, p, req), p)
    ensures AppRecordsOwned(Serve(s, p, req)) <==> CleansUp(s, p, req)
  {
    hide WorldInv, IndexesAgree, UsersConsistent, Regular, Serve, OwnerRegistered, CleansUp;
    WorldStep(s, p, req);
    RegistryStep(s, p, req);
    var next := Serve(s, p, req);
    if CleansUp(s, p, req) {
      forall u: int, it: Item | u >= 0 && it in Items(next.world, u) && Matches(it, AppScope)
        ensures OwnerRegistered(next.registry, u, it)
      {
        OwnedStep(s, p, req, u, it);
      }
    } else {
      LeftBehind(s, p, req);
    }
  }

  // ----- A cleanup that cannot write -----

  const NEW_SERVICE: Service := Service(EMPTY_WORLD, EMPTY_REGISTRY)

  lemma NewServiceIsInv(p: Platform)
    ensures ServiceInv(NEW_SERVICE, p)
  {
    assert forall u: int :: Items(EMPTY_WORLD, u) == [];
    EmptyRegistryAgrees(p);
  }

  lemma OneRecordCounts(items: seq<Item>, x: Item, app: string)
    requires items == [x] && x.appId == Some(app)
    ensures Count(items, ByApp(app)) == 1
  {
    assert Select(items, ByApp(app)) == [x];
  }

  /** The registration and the install before the death. */
  lemma RegisteredInstall(p: Platform, a: Call)
    requires FirstInstall(p.env, a) && a.scope == FONT_SCOPE_APP && a.bundleName != ""
    requires p.userOf(a.tokenId) == a.user && a.user >= 0
    ensures var s1 := Serve(NEW_SERVICE, p, OnFontObserver(a.tokenId, a.bundleName, Linkable));
            var req := InstallScopeFontRequest(a.tokenId, a.scope, a.srcPath, a.bundleName, a.src, a.stamp, a.io);
            && s1.world == EMPTY_WORLD && a.tokenId in s1.registry.clients
            && CallOf(s1, p, req) == Some(a) && Regular(s1, p, req)
            && Serve(s1, p, req) == Service(Apply(EMPTY_WORLD, p.env, a).1, s1.registry)
            && s1.registry.clients[a.tokenId].userId == a.user
  {
    assert Admissible(EMPTY_WORLD, a);
    hide Apply, MakeAppIdentifier, Admissible, FirstInstall;
  }

  /**
    The failing input: a client registers, installs a first font for itself and dies, and its cleanup
    cannot write. Its record stays, owned by nobody.
   */
  lemma FailedCleanupHappens(p: Platform, a: Call)
    requires FirstInstall(p.env, a) && a.scope == FONT_SCOPE_APP && a.bundleName != ""
    requires p.userOf(a.tokenId) == a.user && a.user >= 0
    ensures var s1 := Serve(NEW_SERVICE, p, OnFontObserver(a.tokenId, a.bundleName, Linkable));
            var req := InstallScopeFontRequest(a.tokenId, a.scope, a.srcPath, a.bundleName, a.src, a.stamp, a.io);
            var s2 := Serve(s1, p, req);
            AppRecordsOwned(s2) && !AppRecordsOwned(Serve(s2, p, ClientDied(a.tokenId, Io({Write(0)}, []))))
  {
    var reg := OnFontObserver(a.tokenId, a.bundleName, Linkable);
    var req := InstallScopeFontRequest(a.tokenId, a.scope, a.srcPath, a.bundleName, a.src, a.stamp, a.io);
    hide Serve, CallOf, Apply, AppRecordsOwned, MakeAppIdentifier, Regular, BaseInv, FirstInstall, Items, NewRecord;
    var s1 := Serve(NEW_SERVICE, p, reg);
    var s2 := Serve(s1, p, req);
    RegisteredInstall(p, a);
    NewServiceIsInv(p);
    NoLeaving(NEW_SERVICE, p, reg);
    NoLeaving(s1, p, req);
    RegistersAlways(NEW_SERVICE, p, reg);
    ServeKeepsInv(NEW_SERVICE, p, reg);
    ServeKeepsInv(s1, p, req);
    FirstInstallWorks(p.env, a);
    NewRecordApp(p.env, a);
    CannotClean(s2, p, a.tokenId, NewRecord(a, p.env));
  }

  lemma NoLeaving(s: Service, p: Platform, req: Request)
    requires !Leaves(req)
    ensures CleansUp(s, p, req)
  {
  }

  lemma RegistersAlways(s: Service, p: Platform, req: Request)
    requires req.OnFontObserver?
    ensures Regular(s, p, req)
  {
  }

  /** A registered client with one record dies, and its cleanup cannot write. */
  lemma CannotClean(s: Service, p: Platform, tokenId: int, x: Item)
    requires ServiceInv(s, p) && tokenId in s.registry.clients && s.registry.clients[tokenId].userId >= 0
    requires Items(s.world, s.registry.clients[tokenId].userId) == [x]
    requires x.appId == Some(MakeAppIdentifier(FONT_SCOPE_APP, tokenId))
    ensures !AppRecordsOwned(Serve(s, p, ClientDied(tokenId, Io({Write(0)}, []))))
  {
    var dies := ClientDied(tokenId, Io({Write(0)}, []));
    assert CallOf(s, p, dies) == Some(CleanupApp(s.registry.clients[tokenId].userId, tokenId, dies.io));
    assert Regular(s, p, dies);
    hide Serve, CallOf, BaseInv, AppRecordsOwned, MakeAppIdentifier, Regular, Items, Count;
    OneRecordCounts(Items(s.world, s.registry.clients[tokenId].userId), x, MakeAppIdentifier(FONT_SCOPE_APP, tokenId));
    assert Write(0) in dies.io.failed;
    assert !CleansUp(s, p, dies);
    ServeKeepsInv(s, p, dies);
  }

  lemma NewRecordApp(env: Env, a: Call)
    requires a.InstallScope? && a.scope == FONT_SCOPE_APP
    ensures NewRecord(a, env).appId == Some(MakeAppIdentifier(FONT_SCOPE_APP, a.tokenId))
  {
    hide ScopeFontPath, DestName, FullNamesByFd;
    MakeAppIdentifierInjective(FONT_SCOPE_APP, a.tokenId, FONT_SCOPE_APP, a.tokenId);
  }

  // ----- A death inside an install -----

  /** The state when the client dies after its install passed the gate and before the install reaches the store. */
  function DiedInside(s: Service, p: Platform, tokenId: int, death: Io): Service
  {
    Serve(s, p, ClientDied(tokenId, death))
  }

  /** The record a successful app-scope install adds. */
  lemma AddedAppRecord(w: World, env: Env, call: Call) returns (x: Item)
    requires WorldInv(w, GetMaxInstallNum(env)) && Admissible(w, call)
    requires call.InstallScope? && call.scope == FONT_SCOPE_APP && Apply(w, env, call).0 == ERR_OK
    ensures x in Items(Apply(w, env, call).1, call.user)
    ensures x.scope == Some(FONT_SCOPE_APP) && x.appId == Some(MakeAppIdentifier(FONT_SCOPE_APP, call.tokenId))
  {
    var info := InfoOf(call.scope, call.srcPath, call.bundleName, call.tokenId);
    assert info.appIdentifier == MakeAppIdentifier(FONT_SCOPE_APP, call.tokenId) && info.scope == FONT_SCOPE_APP;
    hide WorldInv, Fresh, InstallDir, ScopeFontPath, DestName, MakeAppIdentifier, IsAppIdentifier, InstallScopeFont,
        ConfigInv, EnsureConfig, ScopeInstallGoesThrough, AgreeBut, ConstructScopeItem, ScopeRecord, ConfigOf;
    var names, name := FullNamesByFd(env, call.src.content), DestName(call.stamp, call.src);
    x := ConstructScopeItem(ScopeRecord(info, names, name));
    AppIdentifierIs(FONT_SCOPE_APP, call.tokenId);
    EnsuredInvOfWorld(w, call.user, GetMaxInstallNum(env));
    InstallScopeExact(w, env, call.user, info, call.src, call.stamp, call.io);
    ScopeItemMembers(info, names, name);
  }

  lemma NewRecordIsUnowned(s: Service, p: Platform, call: Call)
    requires WorldInv(s.world, GetMaxInstallNum(p.env)) && Admissible(s.world, call)
    requires call.InstallScope? && call.scope == FONT_SCOPE_APP && call.user >= 0
    requires call.tokenId !in s.registry.clients && Apply(s.world, p.env, call).0 == ERR_OK
    ensures !AppRecordsOwned(Service(Apply(s.world, p.env, call).1, s.registry))
  {
    hide WorldInv, Admissible, Apply, MakeAppIdentifier, OwnerRegistered;
    var x := AddedAppRecord(s.world, p.env, call);
    NotOwned(s.registry, call.user, x, call.tokenId);
  }

  lemma NotOwned(r: Registry, u: int, it: Item, tokenId: int)
    requires tokenId !in r.clients && it.appId == Some(MakeAppIdentifier(FONT_SCOPE_APP, tokenId))
    ensures !OwnerRegistered(r, u, it)
  {
    hide MakeAppIdentifier;
    forall t: int | t in ClientsOf(r.clients, u)
      ensures it.appId != Some(MakeAppIdentifier(FONT_SCOPE_APP, t))
    {
      MakeAppIdentifierInjective(FONT_SCOPE_APP, t, FONT_SCOPE_APP, tokenId);
    }
  }

  lemma AppendKeepsOwned(s: Service, w2: World, u: int)
    requires forall v: int :: v != u ==> Items(w2, v) == Items(s.world, v)
    requires Items(s.world, u) <= Items(w2, u)
    ensures AppRecordsOwned(Service(w2, s.registry)) ==> AppRecordsOwned(s)
    ensures Items(w2, u) == Items(s.world, u) && AppRecordsOwned(s) ==> AppRecordsOwned(Service(w2, s.registry))
  {
    hide Items, OwnerRegistered;
    forall v: int, it: Item | it in Items(s.world, v) ensures it in Items(w2, v) {
      if v == u {
        var i :| 0 <= i < |Items(s.world, u)| && Items(s.world, u)[i] == it;
        assert Items(w2, u)[i] == it;
      }
    }
  }

  /** The guard of an app-scope install in this state. */
  ghost predicate WouldInstall(s: Service, p: Platform, call: Call)
    requires call.InstallScope?
  {
    ScopeInstallGoesThrough(s.world, p.env, call.user,
                            InfoOf(call.scope, call.srcPath, call.bundleName, call.tokenId), call.src, call.io)
  }

  lemma InstallsExactly(s: Service, p: Platform, call: Call)
    requires BaseInv(s, p) && Admissible(s.world, call) && call.InstallScope? && call.scope == FONT_SCOPE_APP
    ensures var (ret, w2) := Apply(s.world, p.env, call);
            && (ret == ERR_OK <==> WouldInstall(s, p, call))
            && Items(s.world, call.user) <= Items(w2, call.user)
            && (ret != ERR_OK ==> Items(w2, call.user) == Items(s.world, call.user))
            && (forall v: int :: v != call.user ==> Items(w2, v) == Items(s.world, v))
  {
    var w2 := Apply(s.world, p.env, call).1;
    var info := InfoOf(call.scope, call.srcPath, call.bundleName, call.tokenId);
    hide WorldInv, Fresh, InstallDir, ScopeFontPath, DestName, MakeAppIdentifier, IsAppIdentifier, InstallScopeFont,
        ConfigInv, EnsureConfig, ScopeInstallGoesThrough, AgreeBut, ConfigOf, IndexesAgree;
    AppIdentifierIs(FONT_SCOPE_APP, call.tokenId);
    EnsuredInvOfWorld(s.world, call.user, GetMaxInstallNum(p.env));
    InstallScopeExact(s.world, p.env, call.user, info, call.src, call.stamp, call.io);
    OneUserPerCall(s.world, p.env, call);
    forall v: int | v != call.user ensures Items(w2, v) == Items(s.world, v) {
      OtherConfig(s.world, w2, call.user, v);
    }
  }

  /**
    Why the runs are serialised: if the client dies between the gate and the store, every app-scope
    record still belongs to a registered client afterwards exactly if the cleanup of the death could
    write and the install did not go through.
   */
  lemma DeathInsideAnInstall(s: Service, p: Platform, req: Request, death: Io)
    requires ServiceInv(s, p)
    requires req.InstallScopeFontRequest? && req.scope == FONT_SCOPE_APP && CallOf(s, p, req).Some?
    requires Admissible(DiedInside(s, p, req.tokenId, death).world, CallOf(s, p, req).value)
    ensures var s1, call := DiedInside(s, p, req.tokenId, death), CallOf(s, p, req).value;
            AppRecordsOwned(Service(Apply(s1.world, p.env, call).1, s1.registry))
            <==> CleansUp(s, p, ClientDied(req.tokenId, death)) && !WouldInstall(s1, p, call)
  {
    assert Regular(s, p, ClientDied(req.tokenId, death));
    hide WorldInv, IndexesAgree, UsersConsistent, AppRecordsOwned, Apply, Admissible, MakeAppIdentifier, Regular,
        WouldInstall, CleansUp, Items;
    var s1, call := DiedInside(s, p, req.tokenId, death), CallOf(s, p, req).value;
    ServeKeepsInv(s, p, ClientDied(req.tokenId, death));
    EraseClients(s.registry, req.tokenId);
    InstallsExactly(s1, p, call);
    AppendKeepsOwned(s1, Apply(s1.world, p.env, call).1, call.user);
    if WouldInstall(s1, p, call) {
      NewRecordIsUnowned(s1, p, call);
    }
  }

  lemma CleanupTakesFont(s: Service, p: Platform, call: Call, late: Io)
    requires BaseInv(s, p) && Admissible(s.world, call) && call.InstallScope? && call.scope == FONT_SCOPE_APP
    requires WouldInstall(s, p, call)
    ensures var app := MakeAppIdentifier(FONT_SCOPE_APP, call.tokenId);
            var w1 := Apply(s.world, p.env, call).1;
            var w2 := CleanupAppScopeFonts(w1, call.user, app, late);
            && (exists it :: it in Items(w1, call.user) && it.appId == Some(app))
            && ((forall it :: it in Items(w2, call.user) ==> it.appId != Some(app))
                <==> CleanupWritesHold(w1, call.user, ByApp(app), late))
  {
    var app, u, max := MakeAppIdentifier(FONT_SCOPE_APP, call.tokenId), call.user, GetMaxInstallNum(p.env);
    assert forall it :: Matches(it, ByApp(app)) <==> it.appId == Some(app);
    hide WorldInv, Admissible, Apply, MakeAppIdentifier, WouldInstall, Cleanup, ConfigInv, InstallDir, RemoveTree, Matches,
        CleanupWritesHold;
    InstallsExactly(s, p, call);
    var x := AddedAppRecord(s.world, p.env, call);
    var w1 := Apply(s.world, p.env, call).1;
    OneUserPerCall(s.world, p.env, call);
    ApplyKeepsConfigInv(s.world, p.env, call);
    HasConfig(w1, u, x, max);
    CleanupCompletesExactly(w1, u, ByApp(app), late, max);
    assert Items(CleanupAppScopeFonts(w1, u, app, late), u) == Items(Cleanup(w1, u, ByApp(app), late), u);
  }

  /**
    A removal erases the client first and cleans up afterwards. If the client registers again and
    installs in between, the late cleanup takes the new font along, although its client is
    registered, exactly if its writes succeed.
   */
  lemma LateCleanupTakesNewFont(s: Service, p: Platform, again: Request, req: Request, late: Io)
    requires BaseInv(s, p) && again.OnFontObserver? && again.tokenId in s.registry.clients
    requires req.InstallScopeFontRequest? && req.tokenId == again.tokenId && req.scope == FONT_SCOPE_APP
    requires var back := Serve(Service(s.world, Erase(s.registry, again.tokenId)), p, again);
             CallOf(back, p, req).Some? && Admissible(back.world, CallOf(back, p, req).value)
             && WouldInstall(back, p, CallOf(back, p, req).value)
    ensures var back := Serve(Service(s.world, Erase(s.registry, again.tokenId)), p, again);
            var u, app := p.userOf(req.tokenId), MakeAppIdentifier(FONT_SCOPE_APP, req.tokenId);
            var w1 := Serve(back, p, req).world;
            var w2 := CleanupAppScopeFonts(w1, u, app, late);
            && req.tokenId in back.registry.clients
            && (exists it :: it in Items(w1, u) && it.appId == Some(app))
            && ((forall it :: it in Items(w2, u) ==> it.appId != Some(app)) <==>
                  CleanupWritesHold(w1, u, ByApp(app), late))
  {
    hide Serve, CallOf, WorldInv, IndexesAgree, UsersConsistent, WouldInstall, Admissible, Apply, MakeAppIdentifier,
        CleanupWritesHold, CleanupAppScopeFonts, Register, Erase, Items;
    var erased := Service(s.world, Erase(s.registry, again.tokenId));
    var back := Serve(erased, p, again);
    var call := CallOf(back, p, req).value;
    ComesBack(erased, p, again);
    GatedCall(back, p, req);
    assert BaseInv(erased, p) by { ErasedConsistent(s, p, again.tokenId); }
    RegistryStep(erased, p, again);
    CleanupTakesFont(back, p, call, late);
  }

  lemma ComesBack(s: Service, p: Platform, again: Request)
    requires again.OnFontObserver?
    ensures Serve(s, p, again).world == s.world
  {
    hide Apply;
  }

  /** What passed the gate: the install of a registered client, for its own user. */
  lemma GatedCall(s: Service, p: Platform, req: Request)
    requires req.InstallScopeFontRequest? && req.scope == FONT_SCOPE_APP && CallOf(s, p, req).Some?
    ensures var call := CallOf(s, p, req).value;
            && call.InstallScope? && call.user == p.userOf(req.tokenId) && call.tokenId == req.tokenId
            && call.scope == FONT_SCOPE_APP
            && Serve(s, p, req).world == Apply(s.world, p.env, call).1
    ensures req.tokenId in s.registry.clients
  {
    hide Apply;
  }

  lemma ErasedConsistent(s: Service, p: Platform, tokenId: int)
    requires BaseInv(s, p)
    ensures BaseInv(Service(s.world, Erase(s.registry, tokenId)), p)
  {
    hide WorldInv, IndexesAgree;
    EraseKeepsValid(s.registry, tokenId);
    EraseClients(s.registry, tokenId);
  }

  lemma HasConfig(w: World, u: int, it: Item, max: int)
    requires it in Items(w, u) && (u in w.configs ==> ConfigInv(w.configs[u], max))
    ensures ConfigInv(ConfigOf(w, u), max)
  {
    hide ConfigInv;
  }

  // ----- Runs -----

  /** Every app-scope record is owned at the start and after each request. */
  ghost predicate OwnedThroughout(s: Service, p: Platform, requests: seq<Request>)
    decreases |requests|
  {
    AppRecordsOwned(s) && (requests != [] ==> OwnedThroughout(Serve(s, p, requests[0]), p, requests[1..]))
  }

  ghost predicate RegularRun(s: Service, p: Platform, requests: seq<Request>)
    decreases |requests|
  {
    requests != [] ==> Regular(s, p, requests[0]) && RegularRun(Serve(s, p, requests[0]), p, requests[1..])
  }

  ghost predicate CleanRun(s: Service, p: Platform, requests: seq<Request>)
    decreases |requests|
  {
    requests != [] ==> CleansUp(s, p, requests[0]) && CleanRun(Serve(s, p, requests[0]), p, requests[1..])
  }

  lemma {:induction false} OwnedExactlyWhileClean(s: Service, p: Platform, requests: seq<Request>)
    requires ServiceInv(s, p) && RegularRun(s, p, requests)
    ensures OwnedThroughout(s, p, requests) <==> CleanRun(s, p, requests)
    decreases |requests|
  {
    hide BaseInv, AppRecordsOwned, Regular, Serve, CleansUp;
    if requests != [] {
      var next := Serve(s, p, requests[0]);
      ServeKeepsInv(s, p, requests[0]);
      if CleansUp(s, p, requests[0]) {
        OwnedExactlyWhileClean(next, p, requests[1..]);
      }
    }
  }

  /** The cleanup task of a start: all scope fonts on boot, app-scope fonts otherwise. */
  function StartCalls(boot: bool, users: seq<int>, faults: int -> Io): (calls: seq<Call>)
    ensures |calls| == |users|
  {
    if users == [] then []
    else [StartCall(boot, users[0], faults(users[0]))] + StartCalls(boot, users[1..], faults)
  }

  function StartCall(boot: bool, u: int, io: Io): Call
  {
    if boot then CleanupUser(u, io) else CleanupApps(u, io)
  }

  lemma EmptyRegistryAgrees(p: Platform)
    ensures IndexesAgree(EMPTY_REGISTRY) && UsersConsistent(EMPTY_REGISTRY, p)
  {
    forall u: int ensures TokensOf(EMPTY_REGISTRY, u) == ClientsOf(EMPTY_REGISTRY.clients, u) == {} {}
  }
}
