/**
  The registry of font client observers: two indexes over the registered tokens, a cap per
  user, and removal by an unregister call or by the death of the client.
 */
module ClientRegistry {
  import opened Wrappers
  import opened Paths
  import opened FileCopy
  import opened RecordStore
  import opened FontStore
  import opened FontConfigs
  import opened FontManagers

  const ERR_SCOPE_FONT_REPEATED_REGISTER := 31100113
  const ERR_SCOPE_FONT_EXCEED_REGISTER_LIMIT := 31100114
  const ERR_SCOPE_FONT_NOT_REGISTERED := 31100115
  const MAX_SCOPE_FONT_APP_NUM := 5

  datatype ClientInfo = ClientInfo(bundleName: string, userId: int, appIdentifier: string)

  datatype Registry = Registry(clients: map<int, ClientInfo>, userClients: map<int, set<int>>)

  const EMPTY_REGISTRY := Registry(map[], map[])

  function TokensOf(r: Registry, user: int): set<int>
  {
    if user in r.userClients then r.userClients[user] else {}
  }

  /** How the observer a client offers behaves. */
  datatype Observer = Null | Unlinkable | Linkable

  function Register(r: Registry, observer: Observer, bundleName: string, userId: int, tokenId: int): (int, Registry)
  {
    if tokenId in r.clients then (ERR_SCOPE_FONT_REPEATED_REGISTER, r)
    else
      var touched := r.(userClients := r.userClients[userId := TokensOf(r, userId)]);
      if |TokensOf(r, userId)| >= MAX_SCOPE_FONT_APP_NUM then (ERR_SCOPE_FONT_EXCEED_REGISTER_LIMIT, touched)
      else if !observer.Linkable? then (ERR_SYSTEM_ERROR, touched)
      else
        (ERR_OK,
         Registry(r.clients[tokenId := ClientInfo(bundleName, userId, MakeAppIdentifier(FONT_SCOPE_APP, tokenId))],
                  r.userClients[userId := TokensOf(r, userId) + {tokenId}]))
  }

  /** The erasure under the lock, common to unregistering and dying. */
  function Erase(r: Registry, tokenId: int): Registry
  {
    if tokenId !in r.clients then r
    else
      var user := r.clients[tokenId].userId;
      Registry(r.clients - {tokenId}, r.userClients[user := TokensOf(r, user) - {tokenId}])
  }

  /** The tokens that the client index gives to a user. */
  function ClientsOf(clients: map<int, ClientInfo>, user: int): set<int>
  {
    set t | t in clients && clients[t].userId == user
  }

  /** The indexes agree, no user is over the cap, and every entry names its own scope directory. */
  ghost predicate IndexesAgree(r: Registry)
  {
    && (forall u: int :: TokensOf(r, u) == ClientsOf(r.clients, u) && |TokensOf(r, u)| <= MAX_SCOPE_FONT_APP_NUM)
    && NamesOwnDirs(r.clients)
  }

  predicate NamesOwnDirs(clients: map<int, ClientInfo>)
  {
    forall t :: t in clients ==> clients[t].appIdentifier == MakeAppIdentifier(FONT_SCOPE_APP, t)
  }

  lemma ClientsInsert(clients: map<int, ClientInfo>, t: int, info: ClientInfo, u: int)
    requires t !in clients
    ensures ClientsOf(clients[t := info], u) == ClientsOf(clients, u) + (if info.userId == u then {t} else {})
  {
  }

  lemma RegisterTokens(r: Registry, observer: Observer, bundleName: string, userId: int, tokenId: int, u: int)
    requires TokensOf(r, u) == ClientsOf(r.clients, u)
    ensures var (ret, next) := Register(r, observer, bundleName, userId, tokenId);
            var added := if ret == ERR_OK && u == userId then {tokenId} else {};
            && TokensOf(next, u) == ClientsOf(next.clients, u) == TokensOf(r, u) + added
            && (added != {} ==> |TokensOf(r, u)| < MAX_SCOPE_FONT_APP_NUM)
  {
    hide MakeAppIdentifier, ClientsOf;
    RegisterClients(r, observer, bundleName, userId, tokenId);
    if Register(r, observer, bundleName, userId, tokenId).0 == ERR_OK {
      ClientsInsert(r.clients, tokenId, ClientInfo(bundleName, userId, MakeAppIdentifier(FONT_SCOPE_APP, tokenId)), u);
    }
    assert TokensOf(r, u) + {} == TokensOf(r, u);
  }

  lemma RegisterClients(r: Registry, observer: Observer, bundleName: string, userId: int, tokenId: int)
    ensures var (ret, next) := Register(r, observer, bundleName, userId, tokenId);
            && (ret == ERR_OK <==> tokenId !in r.clients && |TokensOf(r, userId)| < MAX_SCOPE_FONT_APP_NUM
                                   && observer.Linkable?)
            && next.clients == if ret == ERR_OK
                               then r.clients[tokenId := ClientInfo(bundleName, userId,
                                                                    MakeAppIdentifier(FONT_SCOPE_APP, tokenId))]
                               else r.clients
  {
    hide MakeAppIdentifier;
  }

  /** Which answer a registration gets: a second one of a token, a sixth client of a user, an observer that fails. */
  lemma RegisterCode(r: Registry, observer: Observer, bundleName: string, userId: int, tokenId: int)
    requires IndexesAgree(r)
    ensures var (ret, next) := Register(r, observer, bundleName, userId, tokenId);
            && ret == (if tokenId in r.clients then ERR_SCOPE_FONT_REPEATED_REGISTER
                       else if |set t | t in r.clients && r.clients[t].userId == userId| >= 5
                       then ERR_SCOPE_FONT_EXCEED_REGISTER_LIMIT
                       else if observer.Linkable? then ERR_OK else ERR_SYSTEM_ERROR)
            && (ret == ERR_OK ==>
                  next.clients.Keys == r.clients.Keys + {tokenId} && next.clients[tokenId].userId == userId)
            && (ret != ERR_OK ==> next.clients == r.clients)
  {
    hide MakeAppIdentifier, IndexesAgree, TokensOf;
    assert ClientsOf(r.clients, userId) == set t | t in r.clients && r.clients[t].userId == userId;
    TokensAre(r, userId);
  }

  lemma RegisterKeepsValid(r: Registry, observer: Observer, bundleName: string, userId: int, tokenId: int)
    requires IndexesAgree(r)
    ensures IndexesAgree(Register(r, observer, bundleName, userId, tokenId).1)
  {
    hide MakeAppIdentifier, Register, TokensOf, ClientsOf;
    var next := Register(r, observer, bundleName, userId, tokenId).1;
    RegisterClients(r, observer, bundleName, userId, tokenId);
    forall u: int
      ensures TokensOf(next, u) == ClientsOf(next.clients, u) && |TokensOf(next, u)| <= MAX_SCOPE_FONT_APP_NUM
    {
      RegisterTokens(r, observer, bundleName, userId, tokenId, u);
    }
  }

  lemma Shrinks(s: set<int>, t: int)
    ensures |s - {t}| <= |s|
  {
    assert s - {t} == if t in s then s - {t} else s;
    assert t in s ==> s == (s - {t}) + {t};
  }

  lemma EraseTokens(r: Registry, tokenId: int, u: int)
    requires forall v: int :: TokensOf(r, v) == ClientsOf(r.clients, v)
    ensures var next := Erase(r, tokenId);
            TokensOf(next, u) == ClientsOf(next.clients, u) == TokensOf(r, u) - {tokenId}
  {
    hide MakeAppIdentifier;
    var next := Erase(r, tokenId);
    assert TokensOf(r, u) == ClientsOf(r.clients, u);
    assert ClientsOf(next.clients, u) == ClientsOf(r.clients, u) - {tokenId};
    assert TokensOf(next, u) == TokensOf(r, u) - {tokenId};
  }

  lemma EraseClients(r: Registry, tokenId: int)
    ensures Erase(r, tokenId).clients == r.clients - {tokenId}
  {
    assert tokenId !in r.clients ==> r.clients - {tokenId} == r.clients;
  }

  lemma EraseKeepsValid(r: Registry, tokenId: int)
    requires IndexesAgree(r)
    ensures IndexesAgree(Erase(r, tokenId))
    ensures Erase(r, tokenId).clients == r.clients - {tokenId}
  {
    hide MakeAppIdentifier, Erase, TokensOf, ClientsOf;
    var next := Erase(r, tokenId);
    EraseClients(r, tokenId);
    forall u: int
      ensures TokensOf(next, u) == ClientsOf(next.clients, u) && |TokensOf(next, u)| <= MAX_SCOPE_FONT_APP_NUM
    {
      TokensAre(r, u);
      EraseTokens(r, tokenId, u);
      Shrinks(TokensOf(r, u), tokenId);
    }
  }

  // ----- Counts -----

  /** The sizes of the listed users' token sets, added up. */
  function SumOver(r: Registry, users: seq<int>): nat
  {
    if users == [] then 0 else |TokensOf(r, users[0])| + SumOver(r, users[1..])
  }

  predicate NoRepeats(users: seq<int>)
  {
    forall i, j :: 0 <= i < j < |users| ==> users[i] != users[j]
  }

  function ClientsAmong(clients: map<int, ClientInfo>, users: seq<int>): set<int>
  {
    set t | t in clients && clients[t].userId in users
  }

  lemma SizeOfUnion(a: set<int>, b: set<int>, c: set<int>)
    requires c == a + b && a !! b
    ensures |c| == |a| + |b|
  {
  }

  lemma {:induction false} SumCounts(r: Registry, users: seq<int>)
    requires IndexesAgree(r) && NoRepeats(users)
    ensures |ClientsAmong(r.clients, users)| == SumOver(r, users)
  {
    hide IndexesAgree;
    if users == [] {
      assert ClientsAmong(r.clients, users) == {};
    } else {
      var u, rest := users[0], users[1..];
      assert u !in rest && NoRepeats(rest) && users == [u] + rest;
      SumCounts(r, rest);
      TokensAre(r, u);
      SizeOfUnion(ClientsOf(r.clients, u), ClientsAmong(r.clients, rest), ClientsAmong(r.clients, users));
    }
  }

  lemma TokensAre(r: Registry, u: int)
    requires IndexesAgree(r)
    ensures TokensOf(r, u) == ClientsOf(r.clients, u) && |TokensOf(r, u)| <= MAX_SCOPE_FONT_APP_NUM
  {
    hide NamesOwnDirs, TokensOf, ClientsOf;
  }

  /** The client count is the sum of the sizes of the users' token sets, however the users are listed. */
  lemma ClientCountIsSum(r: Registry, users: seq<int>)
    requires IndexesAgree(r) && NoRepeats(users)
    requires forall u :: u in r.userClients ==> u in users
    ensures |r.clients| == SumOver(r, users)
  {
    hide IndexesAgree;
    forall t | t in r.clients ensures r.clients[t].userId in users {
      TokensAre(r, r.clients[t].userId);
      assert t in ClientsOf(r.clients, r.clients[t].userId);
    }
    assert r.clients.Keys == ClientsAmong(r.clients, users);
    SumCounts(r, users);
  }

  // ----- Runs -----

  datatype Event =
    | Registered(observer: Observer, bundleName: string, userId: int, tokenId: int)
    | Unregistered(tokenId: int)
    | Died(tokenId: int)

  function Step(r: Registry, e: Event): Registry
  {
    match e
    case Registered(observer, bundleName, userId, tokenId) => Register(r, observer, bundleName, userId, tokenId).1
    case Unregistered(tokenId) => Erase(r, tokenId)
    case Died(tokenId) => Erase(r, tokenId)
  }

  function RunAll(r: Registry, events: seq<Event>): Registry
    decreases |events|
  {
    if events == [] then r else RunAll(Step(r, events[0]), events[1..])
  }

  /** What one event adds to a token's balance: 1 for a registration that succeeds, -1 for a removal that finds it. */
  function Effect(r: Registry, e: Event, t: int): int
  {
    if e.tokenId != t then 0
    else if e.Registered? then
      (if Register(r, e.observer, e.bundleName, e.userId, t).0 == ERR_OK then 1 else 0)
    else if t in r.clients then -1 else 0
  }

  function Balance(r: Registry, events: seq<Event>, t: int): int
    decreases |events|
  {
    if events == [] then 0 else Effect(r, events[0], t) + Balance(Step(r, events[0]), events[1..], t)
  }

  /**
    However registrations, unregister calls and deaths are ordered, the indexes agree afterwards and
    each token's successful registrations exceed its effective removals by one if it is registered
    and by none if it is not. So every registration is cleaned up at most once.
   */
  lemma {:induction false} RunBalances(r: Registry, events: seq<Event>, t: int)
    requires IndexesAgree(r)
    ensures IndexesAgree(RunAll(r, events))
    ensures Balance(r, events, t)
            == (if t in RunAll(r, events).clients then 1 else 0) - (if t in r.clients then 1 else 0)
    decreases |events|
  {
    if events != [] {
      hide IndexesAgree, MakeAppIdentifier;
      var e := events[0];
      match e {
        case Registered(observer, bundleName, userId, tokenId) =>
          RegisterKeepsValid(r, observer, bundleName, userId, tokenId);
          RegisterClients(r, observer, bundleName, userId, tokenId);
        case Unregistered(tokenId) => EraseKeepsValid(r, tokenId);
        case Died(tokenId) => EraseKeepsValid(r, tokenId);
      }
      RunBalances(Step(r, e), events[1..], t);
    }
  }

  // ----- The registry object -----

  class FontClientRegistry {
    var clients: map<int, ClientInfo>
    var userClients: map<int, set<int>>
    const manager: FontManager

    constructor (manager: FontManager)
      ensures this.manager == manager && State() == EMPTY_REGISTRY
    {
      this.manager, clients, userClients := manager, map[], map[];
    }

    function State(): Registry
      reads this
    {
      Registry(clients, userClients)
    }

    method RegisterClient(observer: Observer, bundleName: string, userId: int, tokenId: int) returns (ret: int)
      modifies this
      ensures (ret, State()) == Register(old(State()), observer, bundleName, userId, tokenId)
    {
      if tokenId in clients {
        return ERR_SCOPE_FONT_REPEATED_REGISTER;
      }
      if userId !in userClients {
        userClients := userClients[userId := {}];
      }
      var count := |userClients[userId]|;
      assert userClients == userClients[userId := userClients[userId]];
      if count >= MAX_SCOPE_FONT_APP_NUM {
        return ERR_SCOPE_FONT_EXCEED_REGISTER_LIMIT;
      }
      if observer.Null? {
        return ERR_SYSTEM_ERROR;
      }
      if observer.Linkable? {
        clients := clients[tokenId := ClientInfo(bundleName, userId, MakeAppIdentifier(FONT_SCOPE_APP, tokenId))];
        userClients := userClients[userId := userClients[userId] + {tokenId}];
        assert userClients == old(userClients)[userId := TokensOf(old(State()), userId) + {tokenId}];
        return ERR_OK;
      }
      return ERR_SYSTEM_ERROR;
    }

    /** Erase the client, then clean up its app scope fonts; `notified` says that the unload check was run. */
    method RemoveClient(tokenId: int, io: Io) returns (found: bool, notified: bool)
      requires manager.Valid() && IndexesAgree(State())
      modifies this, manager`configMap, manager.disk
      ensures manager.Valid() && IndexesAgree(State())
      ensures State() == Erase(old(State()), tokenId)
      ensures found == notified == (tokenId in old(clients))
      ensures manager.disk.State()
              == if found && old(clients)[tokenId].userId >= 0
                 then CleanupAppScopeFonts(old(manager.disk.State()), old(clients)[tokenId].userId,
                                           MakeAppIdentifier(FONT_SCOPE_APP, tokenId), io)
                 else old(manager.disk.State())
    {
      EraseKeepsValid(State(), tokenId);
      if tokenId !in clients {
        return false, false;
      }
      var info := clients[tokenId];
      assert tokenId in TokensOf(State(), info.userId);
      clients := clients - {tokenId};
      userClients := userClients[info.userId := userClients[info.userId] - {tokenId}];
      assert info.appIdentifier != "" by {
        MakeAppIdentifierInjective(FONT_SCOPE_APP, tokenId, FONT_SCOPE_APP, tokenId);
      }
      if info.appIdentifier != "" && info.userId >= 0 {
        var _ := manager.CleanupAppScopeFonts(info.appIdentifier, info.userId, io);
      }
      return true, true;
    }

    method UnregisterClient(tokenId: int, io: Io) returns (ret: int, notified: bool)
      requires manager.Valid() && IndexesAgree(State())
      modifies this, manager`configMap, manager.disk
      ensures manager.Valid() && IndexesAgree(State())
      ensures State() == Erase(old(State()), tokenId)
      ensures ret == if tokenId in old(clients) then ERR_OK else ERR_SCOPE_FONT_NOT_REGISTERED
      ensures notified == (tokenId in old(clients))
      ensures manager.disk.State()
              == if tokenId in old(clients) && old(clients)[tokenId].userId >= 0
                 then CleanupAppScopeFonts(old(manager.disk.State()), old(clients)[tokenId].userId,
                                           MakeAppIdentifier(FONT_SCOPE_APP, tokenId), io)
                 else old(manager.disk.State())
    {
      var found;
      found, notified := RemoveClient(tokenId, io);
      ret := if found then ERR_OK else ERR_SCOPE_FONT_NOT_REGISTERED;
    }

    method OnClientDied(tokenId: int, io: Io) returns (notified: bool)
      requires manager.Valid() && IndexesAgree(State())
      modifies this, manager`configMap, manager.disk
      ensures manager.Valid() && IndexesAgree(State())
      ensures State() == Erase(old(State()), tokenId)
      ensures notified == (tokenId in old(clients))
      ensures manager.disk.State()
              == if tokenId in old(clients) && old(clients)[tokenId].userId >= 0
                 then CleanupAppScopeFonts(old(manager.disk.State()), old(clients)[tokenId].userId,
                                           MakeAppIdentifier(FONT_SCOPE_APP, tokenId), io)
                 else old(manager.disk.State())
    {
      var found;
      found, notified := RemoveClient(tokenId, io);
    }

    method IsClientRegistered(tokenId: int) returns (registered: bool)
      ensures registered <==> tokenId in State().clients
    {
      return tokenId in clients;
    }
  }
}
