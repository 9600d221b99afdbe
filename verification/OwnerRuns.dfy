/**
  Scope queries over whole runs: when they answer from the history of installs and removals alone.
 */
module OwnerRuns {
  import opened Wrappers
  import opened Paths
  import opened FileCopy
  import opened RecordStore
  import opened FontStore
  import opened StoreInvariants
  import opened InstallTheorems
  import opened UninstallTheorems
  import opened StoreRuns
  import opened ScopeRuns
  import opened VersionRuns

  datatype Owner = Owner(bundleName: string, scope: int, tokenId: int)

  /** Who owns each source url of each user. */
  type Ledger = map<(int, string), Owner>

  /** The ledger after a call, from the request and the code it returned. */
  function Post(ledger: Ledger, call: Call, ret: int): Ledger
  {
    match call
    case InstallScope(u, scope, srcPath, bundle, token, _, _, _) =>
      if ret == ERR_OK then ledger[(u, srcPath) := Owner(bundle, scope, token)] else ledger
    case UninstallScope(u, srcPath, _, _, _) =>
      if ret == ERR_OK then ledger - {(u, srcPath)} else ledger
    case CleanupApp(u, token, _) =>
      map k | k in ledger && !(k.0 == u && ledger[k].scope == FONT_SCOPE_APP && ledger[k].tokenId == token) :: ledger[k]
    case CleanupUser(u, _) =>
      map k | k in ledger && k.0 != u :: ledger[k]
    case CleanupApps(u, _) =>
      map k | k in ledger && !(k.0 == u && ledger[k].scope == FONT_SCOPE_APP) :: ledger[k]
    case _ => ledger
  }

  predicate OwnedBy(it: Item, o: Owner)
  {
    && (o.scope == FONT_SCOPE_APP || o.scope == FONT_SCOPE_SESSION)
    && it.scope == Some(o.scope) && it.appId == Some(MakeAppIdentifier(o.scope, o.tokenId))
    && OrElse(it.bundle, "") == o.bundleName
  }

  ghost predicate Represents(items: seq<Item>, ledger: Ledger, u: int)
  {
    && (forall it: Item :: it in items && it.srcPath.Some? ==>
          (u, it.srcPath.value) in ledger && OwnedBy(it, ledger[(u, it.srcPath.value)]))
    && (forall url: string :: (u, url) in ledger ==> exists it: Item :: it in items && it.srcPath == Some(url))
  }

  lemma PostOtherUsers(ledger: Ledger, call: Call, ret: int, v: int, url: string)
    requires v != call.user
    ensures (v, url) in Post(ledger, call, ret) <==> (v, url) in ledger
    ensures (v, url) in ledger ==> Post(ledger, call, ret)[(v, url)] == ledger[(v, url)]
  {
  }

  lemma AddedIsOwned(call: Call, env: Env, it: Item)
    requires Adds(call, env, ERR_OK, it)
    requires call.scope == FONT_SCOPE_APP || call.scope == FONT_SCOPE_SESSION
    requires call.srcPath != ""
    ensures it.srcPath == Some(call.srcPath) && OwnedBy(it, Owner(call.bundleName, call.scope, call.tokenId))
  {
    hide ScopeFontPath, DestName, FullNamesByFd;
    MakeAppIdentifierInjective(call.scope, call.tokenId, call.scope, call.tokenId);
  }

  /** A record stays exactly when its ledger entry does. */
  lemma RemovesByOwner(call: Call, ret: int, it: Item, o: Owner, ledger: Ledger)
    requires OwnedBy(it, o) && it.srcPath.Some? && !call.InstallScope?
    requires var k := (call.user, it.srcPath.value); k in ledger && ledger[k] == o
    ensures var k := (call.user, it.srcPath.value);
            (Removes(call, ret, it) <==> k !in Post(ledger, call, ret))
            && (k in Post(ledger, call, ret) ==> Post(ledger, call, ret)[k] == o)
  {
    hide MakeAppIdentifier;
    if call.CleanupApp? {
      MakeAppIdentifierInjective(o.scope, o.tokenId, FONT_SCOPE_APP, call.tokenId);
    }
  }

  lemma PostRemovals(items: seq<Item>, items2: seq<Item>, ledger: Ledger, call: Call, ret: int)
    requires Represents(items, ledger, call.user) && (call.InstallScope? ==> ret != ERR_OK)
    requires forall it: Item :: it.srcPath.Some? ==> (it in items2 <==> it in items && !Removes(call, ret, it))
    ensures Represents(items2, Post(ledger, call, ret), call.user)
  {
    hide OwnedBy, Removes;
    var u, next := call.user, Post(ledger, call, ret);
    forall it: Item | it in items && it.srcPath.Some?
      ensures var k := (u, it.srcPath.value);
              (it in items2 <==> k in next) && (k in next ==> next[k] == ledger[k])
    {
      if call.InstallScope? {
        assert !Removes(call, ret, it) by { InstallRemovesNothing(call, ret, it); }
      } else {
        RemovesByOwner(call, ret, it, ledger[(u, it.srcPath.value)], ledger);
      }
    }
    forall url: string | (u, url) in next
      ensures exists it: Item :: it in items2 && it.srcPath == Some(url)
    {
      assert (u, url) in ledger by { PostShrinks(ledger, call, ret, (u, url)); }
      var it: Item :| it in items && it.srcPath == Some(url);
      assert it in items2;
    }
  }

  lemma InstallRemovesNothing(call: Call, ret: int, it: Item)
    requires call.InstallScope?
    ensures !Removes(call, ret, it)
  {
  }

  lemma PostShrinks(ledger: Ledger, call: Call, ret: int, k: (int, string))
    requires call.InstallScope? ==> ret != ERR_OK
    requires k in Post(ledger, call, ret)
    ensures k in ledger
  {
  }

  lemma PostInstall(items: seq<Item>, items2: seq<Item>, x: Item, ledger: Ledger, call: Call)
    requires Represents(items, ledger, call.user) && call.InstallScope? && RecordsInv(items2)
    requires x in items2 && x.srcPath == Some(call.srcPath)
    requires OwnedBy(x, Owner(call.bundleName, call.scope, call.tokenId))
    requires forall it: Item :: it.srcPath.Some? ==> (it in items2 <==> it in items || it == x)
    ensures Represents(items2, Post(ledger, call, ERR_OK), call.user)
  {
    hide OwnedBy, RecordsInv;
    var u, next := call.user, Post(ledger, call, ERR_OK);
    var i :| 0 <= i < |items2| && items2[i] == x;
    OneUrl(items2, i);
    assert next == ledger[(u, call.srcPath) := Owner(call.bundleName, call.scope, call.tokenId)];
    forall url: string | (u, url) in next
      ensures exists it: Item :: it in items2 && it.srcPath == Some(url)
    {
      if url != call.srcPath {
        var it: Item :| it in items && it.srcPath == Some(url);
        assert it in items2;
      }
    }
  }

  lemma OtherUserRepresents(items: seq<Item>, ledger: Ledger, call: Call, ret: int, v: int)
    requires v != call.user && Represents(items, ledger, v)
    ensures Represents(items, Post(ledger, call, ret), v)
  {
    hide Post, OwnedBy;
    forall url: string ensures (v, url) in Post(ledger, call, ret) <==> (v, url) in ledger
      ensures (v, url) in ledger ==> Post(ledger, call, ret)[(v, url)] == ledger[(v, url)]
    {
      PostOtherUsers(ledger, call, ret, v, url);
    }
  }

  /** The ledger of a run, from its requests and return codes. */
  function History(w: World, env: Env, calls: seq<Call>, ledger: Ledger): Ledger
    decreases |calls|
  {
    if calls == [] then ledger
    else
      var (ret, w2) := Apply(w, env, calls[0]);
      History(w2, env, calls[1..], Post(ledger, calls[0], ret))
  }

  // ----- One call -----

  /** The scope a history leads one to expect. */
  function Answer(ledger: Ledger, u: int, url: string, bundle: string, token: int): int
  {
    if (u, url) in ledger && ledger[(u, url)].bundleName == bundle && ledger[(u, url)].tokenId == token
    then ledger[(u, url)].scope else ERR_SCOPE_FONT_NOT_FOUND
  }

  /** Every query of every caller gets the expected answer. */
  ghost predicate QueriesFollow(w: World, ledger: Ledger)
  {
    forall u: int, url: string, bundle: string, token: int ::
      GetFontScope(w, u, url, bundle, token) == Answer(ledger, u, url, bundle, token)
  }

  predicate LedgerOk(ledger: Ledger)
  {
    forall k :: k in ledger ==> ledger[k].scope == FONT_SCOPE_APP || ledger[k].scope == FONT_SCOPE_SESSION
  }

  ghost predicate RepresentsAll(w: World, ledger: Ledger)
  {
    forall u: int :: Represents(Items(w, u), ledger, u)
  }

  lemma QueryExact(w: World, ledger: Ledger, u: int, url: string, bundle: string, token: int)
    requires Represents(Items(w, u), ledger, u)
    ensures GetFontScope(w, u, url, bundle, token) == Answer(ledger, u, url, bundle, token)
  {
    hide MakeAppIdentifier;
    var items := Items(w, u);
    var i := First(items, ByUrl(url));
    if i < |items| {
      assert items[i] in items && OwnedBy(items[i], ledger[(u, url)]);
      var o := ledger[(u, url)];
      MakeAppIdentifierInjective(o.scope, o.tokenId, o.scope, token);
    }
  }

  /** The query finds a scope record for its own caller. */
  lemma OwnRecordAnswers(w: World, u: int, it: Item, max: int) returns (bundle: string, token: int)
    requires UserInv(w, u, max) && it in Items(w, u) && it.srcPath.Some?
    ensures it.scope.Some? && (it.scope.value == FONT_SCOPE_APP || it.scope.value == FONT_SCOPE_SESSION)
    ensures it.appId == Some(MakeAppIdentifier(it.scope.value, token)) && OrElse(it.bundle, "") == bundle
    ensures GetFontScope(w, u, it.srcPath.value, bundle, token) == it.scope.value
  {
    hide RecordsInv, MakeAppIdentifier, UserFontPath, ScopeFontPath, GetFileName;
    var items, url := Items(w, u), it.srcPath.value;
    ItemsOk(items);
    bundle := OrElse(it.bundle, "");
    token :| it.appId.value == MakeAppIdentifier(it.scope.value, token);
    var j :| 0 <= j < |items| && items[j] == it;
    OneUrl(items, j);
    var i := First(items, ByUrl(url));
    assert Matches(items[j], ByUrl(url));
    assert items[i] in items && items[i] == it;
  }

  /** Answering as expected for everybody is the same as recording exactly the expected owners. */
  lemma FollowIsRepresent(w: World, ledger: Ledger, max: int)
    requires WorldInv(w, max) && LedgerOk(ledger)
    ensures QueriesFollow(w, ledger) <==> RepresentsAll(w, ledger)
  {
    hide GetFontScope, Represents, Answer, ConfigInv;
    if RepresentsAll(w, ledger) {
      forall u: int, url: string, bundle: string, token: int
        ensures GetFontScope(w, u, url, bundle, token) == Answer(ledger, u, url, bundle, token)
      {
        QueryExact(w, ledger, u, url, bundle, token);
      }
    }
    if QueriesFollow(w, ledger) {
      forall u: int ensures Represents(Items(w, u), ledger, u) {
        FollowForces(w, ledger, u, max);
      }
    }
  }

  lemma FollowForces(w: World, ledger: Ledger, u: int, max: int)
    requires WorldInv(w, max) && LedgerOk(ledger) && QueriesFollow(w, ledger)
    ensures Represents(Items(w, u), ledger, u)
  {
    hide GetFontScope, ConfigInv, MakeAppIdentifier;
    var items := Items(w, u);
    forall it: Item | it in items && it.srcPath.Some?
      ensures (u, it.srcPath.value) in ledger && OwnedBy(it, ledger[(u, it.srcPath.value)])
    {
      var bundle, token := OwnRecordAnswers(w, u, it, max);
      assert Answer(ledger, u, it.srcPath.value, bundle, token) == it.scope.value;
    }
    forall url: string | (u, url) in ledger ensures exists it: Item :: it in items && it.srcPath == Some(url) {
      var o := ledger[(u, url)];
      assert GetFontScope(w, u, url, o.bundleName, o.tokenId) == o.scope;
      FoundByUrl(w, u, url, o.bundleName, o.tokenId);
    }
  }

  lemma FoundByUrl(w: World, u: int, url: string, bundle: string, token: int)
    requires GetFontScope(w, u, url, bundle, token) != ERR_SCOPE_FONT_NOT_FOUND
    ensures exists it: Item :: it in Items(w, u) && it.srcPath == Some(url)
  {
    var items := Items(w, u);
    var i := First(items, ByUrl(url));
    assert items[i] in items && Matches(items[i], ByUrl(url));
  }

  lemma RepresentsKept(w: World, env: Env, call: Call, ledger: Ledger)
    requires UserInv(w, call.user, GetMaxInstallNum(env)) && Admissible(w, call) && HistoryHolds(w, env, call)
    requires UserInv(Apply(w, env, call).1, call.user, GetMaxInstallNum(env))
    requires Represents(Items(w, call.user), ledger, call.user)
    ensures var (ret, w2) := Apply(w, env, call);
            Represents(Items(w2, call.user), Post(ledger, call, ret), call.user)
  {
    hide Apply, Represents, OwnedBy, Fresh, NewRecord, UserInv, HistoryHolds, ConfigInv;
    ScopesFollow(w, env, call);
    var (ret, w2) := Apply(w, env, call);
    var items, items2 := Items(w, call.user), Items(w2, call.user);
    if call.InstallScope? && ret == ERR_OK {
      ScopesOfScopeInstall(w, env, call);
      var x := NewRecord(call, env);
      AddedIsOwned(call, env, x);
      assert x in items2;
      ItemsHaveInv(w2, call.user, GetMaxInstallNum(env));
      PostInstall(items, items2, x, ledger, call);
    } else {
      PostRemovals(items, items2, ledger, call, ret);
    }
  }

  lemma ItemsHaveInv(w: World, u: int, max: int)
    requires UserInv(w, u, max)
    ensures RecordsInv(Items(w, u))
  {
    hide ItemOk, Apart;
  }

  lemma RepresentsBroken(w: World, env: Env, call: Call, ledger: Ledger)
    requires UserInv(w, call.user, GetMaxInstallNum(env)) && Admissible(w, call) && !HistoryHolds(w, env, call)
    requires Represents(Items(w, call.user), ledger, call.user)
    ensures var (ret, w2) := Apply(w, env, call);
            !Represents(Items(w2, call.user), Post(ledger, call, ret), call.user)
  {
    hide Apply, OwnedBy, UserInv, HistoryHolds, Admissible, Items;
    var u := call.user;
    var (ret, w2) := Apply(w, env, call);
    var items, items2 := Items(w, u), Items(w2, u);
    ScopesBreak(w, env, call);
    var it :| it in items && it.srcPath.Some?
              && if call.Install? then it !in items2
                 else IsCleanup(call) && ret == ERR_OK && it in items2 && Removes(call, ret, it);
    var k := (u, it.srcPath.value);
    assert k in ledger && OwnedBy(it, ledger[k]);
    if call.Install? {
      assert Post(ledger, call, ret) == ledger;
      OnlyHolder(w, env, call, it);
    } else {
      RemovesByOwner(call, ret, it, ledger[k], ledger);
    }
  }

  /** After an install dropped a scope record, no record has its url. */
  lemma OnlyHolder(w: World, env: Env, call: Call, it: Item)
    requires call.Install? && UserInv(w, call.user, GetMaxInstallNum(env)) && Admissible(w, call)
    requires it in Items(w, call.user) && it.srcPath.Some? && it !in Items(Apply(w, env, call).1, call.user)
    ensures forall x: Item :: x in Items(Apply(w, env, call).1, call.user) ==> x.srcPath != it.srcPath
  {
    hide Apply, UserInv, Admissible, Items, KeptByInstall, RecordsInv;
    ScopesOfInstall(w, env, call);
    InstallDropsStale(w, env, call.user, call.src, call.io);
    ItemsHaveInv(w, call.user, GetMaxInstallNum(env));
    var items := Items(w, call.user);
    var i :| 0 <= i < |items| && items[i] == it;
    OneUrl(items, i);
  }

  lemma PostOk(w: World, env: Env, call: Call, ledger: Ledger)
    requires LedgerOk(ledger) && UserInv(w, call.user, GetMaxInstallNum(env)) && Admissible(w, call)
    ensures LedgerOk(Post(ledger, call, Apply(w, env, call).0))
  {
    hide Apply, UserInv, Admissible;
    if call.InstallScope? {
      ScopesOfScopeInstall(w, env, call);
    }
  }

  /** A single call keeps every query on the history exactly while its guard holds. */
  lemma CallFollowsExactly(w: World, env: Env, call: Call, ledger: Ledger)
    requires WorldInv(w, GetMaxInstallNum(env)) && Admissible(w, call) && LedgerOk(ledger) && QueriesFollow(w, ledger)
    ensures var (ret, w2) := Apply(w, env, call);
            && (QueriesFollow(w2, Post(ledger, call, ret)) <==> HistoryHolds(w, env, call))
            && WorldInv(w2, GetMaxInstallNum(env)) && LedgerOk(Post(ledger, call, ret))
  {
    hide Apply, QueriesFollow, Represents, HistoryHolds, Admissible, Post, LedgerOk, ConfigInv, Items, OnlyUser;
    var max := GetMaxInstallNum(env);
    var (ret, w2) := Apply(w, env, call);
    OneUserPerCall(w, env, call);
    ApplyKeepsConfigInv(w, env, call);
    InvOfOneUser(w, w2, call.user, max);
    PostOk(w, env, call, ledger);
    FollowIsRepresent(w, ledger, max);
    FollowIsRepresent(w2, Post(ledger, call, ret), max);
    assert Represents(Items(w, call.user), ledger, call.user);
    if HistoryHolds(w, env, call) {
      RepresentsKept(w, env, call, ledger);
      forall v: int ensures Represents(Items(w2, v), Post(ledger, call, ret), v) {
        if v != call.user {
          OtherConfig(w, w2, call.user, v);
          OtherItems(w, w2, v);
          OtherUserRepresents(Items(w, v), ledger, call, ret, v);
        }
      }
    } else {
      RepresentsBroken(w, env, call, ledger);
    }
  }

  lemma OtherItems(w: World, w2: World, v: int)
    requires ConfigOf(w2, v) == ConfigOf(w, v)
    ensures Items(w2, v) == Items(w, v)
  {
  }

  // ----- Runs -----

  /** Every query follows the history at the start and after each call. */
  ghost predicate AlwaysFollows(w: World, env: Env, calls: seq<Call>, ledger: Ledger)
    decreases |calls|
  {
    QueriesFollow(w, ledger)
    && (calls != [] ==>
          var (ret, w2) := Apply(w, env, calls[0]);
          AlwaysFollows(w2, env, calls[1..], Post(ledger, calls[0], ret)))
  }

  ghost predicate AlwaysHolds(w: World, env: Env, calls: seq<Call>)
    decreases |calls|
  {
    calls != [] ==> HistoryHolds(w, env, calls[0]) && AlwaysHolds(Apply(w, env, calls[0]).1, env, calls[1..])
  }

  /**
    The exact condition, under every fault: the scope queries of all callers follow the history of
    installs and removals throughout a run exactly when no call of it trips its guard.
   */
  lemma {:induction false} QueriesFollowExactly(w: World, env: Env, calls: seq<Call>, ledger: Ledger)
    requires WorldInv(w, GetMaxInstallNum(env)) && AdmissibleRun(w, env, calls)
    requires LedgerOk(ledger) && QueriesFollow(w, ledger)
    ensures AlwaysFollows(w, env, calls, ledger) <==> AlwaysHolds(w, env, calls)
    ensures AlwaysHolds(w, env, calls) ==> QueriesFollow(Run(w, env, calls), History(w, env, calls, ledger))
    decreases |calls|
  {
    hide WorldInv, Apply, QueriesFollow, HistoryHolds, Admissible, Post, LedgerOk;
    if calls != [] {
      CallFollowsExactly(w, env, calls[0], ledger);
      var (ret, w2) := Apply(w, env, calls[0]);
      if HistoryHolds(w, env, calls[0]) {
        QueriesFollowExactly(w2, env, calls[1..], Post(ledger, calls[0], ret));
      } else {
        BrokenNow(w2, env, calls[1..], Post(ledger, calls[0], ret));
      }
    }
  }

  lemma BrokenNow(w: World, env: Env, calls: seq<Call>, ledger: Ledger)
    requires !QueriesFollow(w, ledger)
    ensures !AlwaysFollows(w, env, calls, ledger)
  {
    hide QueriesFollow, Apply, Post;
  }
}
