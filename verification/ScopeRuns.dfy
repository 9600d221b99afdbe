/**
  Which scope records a call adds and removes, under every fault, and when that is what its return
  code says.
 */
module ScopeRuns {
  import opened Wrappers
  import opened Paths
  import opened FileCopy
  import opened RecordStore
  import opened FontStore
  import opened StoreInvariants
  import opened InstallTheorems
  import opened UninstallTheorems
  import opened StoreRuns

  ghost predicate UserInv(w: World, u: int, max: int)
  {
    u in w.configs ==> ConfigInv(w.configs[u], max)
  }

  predicate IsCleanup(call: Call)
  {
    call.CleanupApp? || call.CleanupUser? || call.CleanupApps?
  }

  function KeyOf(call: Call): (key: Key)
    requires IsCleanup(call)
    ensures IsCleanupKey(key)
  {
    match call
    case CleanupApp(_, token, _) => ByApp(MakeAppIdentifier(FONT_SCOPE_APP, token))
    case CleanupUser(_, _) => AnyScope
    case CleanupApps(_, _) => AppScope
  }

  /** The scope records a call removes when it reports `ret`. */
  predicate Removes(call: Call, ret: int, it: Item)
  {
    match call
    case UninstallScope(_, srcPath, _, _, _) => ret == ERR_OK && it.srcPath == Some(srcPath)
    case CleanupApp(_, token, _) => it.appId == Some(MakeAppIdentifier(FONT_SCOPE_APP, token))
    case CleanupUser(_, _) => it.scope.Some?
    case CleanupApps(_, _) => it.scope == Some(FONT_SCOPE_APP)
    case _ => false
  }

  function NewRecord(call: Call, env: Env): Item
    requires call.InstallScope?
  {
    ConstructScopeItem(ScopeRecord(InfoOf(call.scope, call.srcPath, call.bundleName, call.tokenId),
                                   FullNamesByFd(env, call.src.content), DestName(call.stamp, call.src)))
  }

  /** The scope record a call adds when it reports `ret`. */
  predicate Adds(call: Call, env: Env, ret: int, it: Item)
  {
    call.InstallScope? && ret == ERR_OK && it == NewRecord(call, env)
  }

  ghost predicate ScopeRecordsChange(w: World, w2: World, env: Env, call: Call, ret: int)
  {
    forall it: Item :: it.srcPath.Some? ==>
      (it in Items(w2, call.user) <==>
        (it in Items(w, call.user) && !Removes(call, ret, it)) || Adds(call, env, ret, it))
  }

  /**
    The guard of the two branches that change scope records without saying so: an install whose
    stale loop reaches a name of a scope record without a file, and a cleanup whose config writes fail.
   */
  ghost predicate HistoryHolds(w: World, env: Env, call: Call)
  {
    if call.Install? then
      var names := FullNamesByFd(env, call.src.content);
      InitDir in call.io.failed
      || forall it :: it in Items(w, call.user) && it.srcPath.Some? ==>
           !Named(it, names[..StopAt(w, call.user, names, 0, call.io)])
    else IsCleanup(call) ==> CleanupWritesHold(w, call.user, KeyOf(call), call.io)
  }

  // ----- Each call's effect on scope records -----

  lemma ScopesOfInstall(w: World, env: Env, call: Call)
    requires call.Install? && UserInv(w, call.user, GetMaxInstallNum(env)) && Admissible(w, call)
    ensures forall it: Item :: it.srcPath.Some? ==>
              (it in Items(Apply(w, env, call).1, call.user) <==> it in KeptByInstall(w, env, call.user, call.src, call.io))
    ensures HistoryHolds(w, env, call) <==>
            forall it :: it in Items(w, call.user) && it.srcPath.Some? ==>
              it in KeptByInstall(w, env, call.user, call.src, call.io)
  {
    hide ConfigInv, InstallDir, UserFontPath, DestName, Fresh, InstallGoesThrough, CopyIsStranded, EnsureConfig,
        InstallFont, FullNamesByFd, Named, Unnamed, StopAt, AgreeBut;
    var names, u := FullNamesByFd(env, call.src.content), call.user;
    EnsuredInv(w, u, GetMaxInstallNum(env));
    InstallFontExact(w, env, u, call.src, call.stamp, call.io);
    UnnamedMembers(Items(w, u), names[..StopAt(w, u, names, 0, call.io)]);
  }

  lemma ScopesOfScopeInstall(w: World, env: Env, call: Call)
    requires call.InstallScope? && UserInv(w, call.user, GetMaxInstallNum(env)) && Admissible(w, call)
    ensures var (ret, w2) := Apply(w, env, call);
            && Items(w2, call.user) == Items(w, call.user) + (if ret == ERR_OK then [NewRecord(call, env)] else [])
            && (ret == ERR_OK ==> call.scope == FONT_SCOPE_APP || call.scope == FONT_SCOPE_SESSION)
  {
    InitFaultKeeps(w, env, call);
    assert NewRecord(call, env) == ConstructScopeItem(
        ScopeRecord(InfoOf(call.scope, call.srcPath, call.bundleName, call.tokenId), FullNamesByFd(env, call.src.content),
                    DestName(call.stamp, call.src)));
    hide ConfigInv, InstallDir, ScopeFontPath, DestName, Fresh, ScopeCopyArrives, EnsureConfig, ConstructScopeItem,
        ScopeRecord, InstallScopeFont, FullNamesByFd, MakeAppIdentifier, IsAppIdentifier, AgreeBut, NewRecord;
    if call.scope == FONT_SCOPE_APP || call.scope == FONT_SCOPE_SESSION {
      var info := InfoOf(call.scope, call.srcPath, call.bundleName, call.tokenId);
      AppIdentifierIs(call.scope, call.tokenId);
      EnsuredInv(w, call.user, GetMaxInstallNum(env));
      InstallScopeExact(w, env, call.user, info, call.src, call.stamp, call.io);
    }
  }

  lemma ScopesOfUninstall(w: World, env: Env, call: Call)
    requires call.Uninstall? && call.user in w.configs && UserInv(w, call.user, GetMaxInstallNum(env))
    ensures forall it: Item :: it.srcPath.Some? ==>
              (it in Items(Apply(w, env, call).1, call.user) <==> it in Items(w, call.user))
  {
    hide RecordsInv, ItemOk, Place, UninstallFont, HasBackslash, First;
    var u := call.user;
    var items := Items(w, u);
    UninstallFontExact(w, u, call.name, call.io, GetMaxInstallNum(env));
    if CanUninstall(w, u, call.name) {
      var i := First(items, ByName(call.name));
      OnlyOne(items, i);
      RemoveAtMembers(items, i);
      ItemsOk(items);
      assert items[i] in items;
      ItemOkShape(items[i]);
    }
  }

  lemma ScopesOfScopeUninstall(w: World, env: Env, call: Call)
    requires call.UninstallScope? && call.user in w.configs && UserInv(w, call.user, GetMaxInstallNum(env))
    ensures var (ret, w2) := Apply(w, env, call);
            forall it: Item :: it in Items(w2, call.user) <==> it in Items(w, call.user) && !Removes(call, ret, it)
  {
    hide RecordsInv, ItemOk, Place, UninstallScopeFont, HasBackslash, First, Owns;
    var u := call.user;
    var items := Items(w, u);
    UninstallScopeExact(w, u, call.srcPath, call.bundleName, call.tokenId, call.io, GetMaxInstallNum(env));
    if CallerOwns(w, u, call.srcPath, call.bundleName, call.tokenId) {
      var i := First(items, ByUrl(call.srcPath));
      OnlyOne(items, i);
      RemoveAtMembers(items, i);
      OneUrl(items, i);
    }
  }

  lemma KeyRemoves(call: Call, it: Item)
    requires IsCleanup(call) && ItemOk(it)
    ensures Removes(call, ERR_OK, it) <==> Matches(it, KeyOf(call))
    ensures Matches(it, KeyOf(call)) ==> it.srcPath.Some?
  {
    hide ItemOk, MakeAppIdentifier;
    ItemOkShape(it);
  }

  lemma CleanupApplies(w: World, env: Env, call: Call)
    requires IsCleanup(call)
    ensures Apply(w, env, call).0 == ERR_OK
    ensures Items(Apply(w, env, call).1, call.user) == Items(Cleanup(w, call.user, KeyOf(call), call.io), call.user)
  {
    hide Cleanup, RemoveTree, MakeAppIdentifier;
  }

  /** A cleanup whose writes hold removes what it is meant to; any other leaves one of those records. */
  lemma ScopesOfCleanup(w: World, env: Env, call: Call)
    requires IsCleanup(call) && call.user in w.configs && UserInv(w, call.user, GetMaxInstallNum(env))
    ensures var w2 := Apply(w, env, call).1;
            if HistoryHolds(w, env, call)
            then forall it: Item :: it in Items(w2, call.user) <==> it in Items(w, call.user) && !Removes(call, ERR_OK, it)
            else exists it :: it in Items(w, call.user) && it in Items(w2, call.user) && it.srcPath.Some?
                              && Removes(call, ERR_OK, it)
  {
    hide Cleanup, Matches, RecordsInv, Removes, Apply, CleanupWritesHold, Without, Surviving, MakeAppIdentifier, ItemOk;
    var u, key := call.user, KeyOf(call);
    var items, left := Items(w, u), Items(Cleanup(w, u, key, call.io), u);
    CleanupApplies(w, env, call);
    CleanupCompletesExactly(w, u, key, call.io, GetMaxInstallNum(env));
    CleanupWorldExact(w, u, key, call.io, GetMaxInstallNum(env));
    SelectMembers(items, key);
    ItemsOk(items);
    forall it | it in items
      ensures Removes(call, ERR_OK, it) <==> Matches(it, key)
      ensures Matches(it, key) ==> it.srcPath.Some?
    {
      KeyRemoves(call, it);
    }
    forall it | it in left ensures it in items {
      SurvivorsAreOld(items, key, FailedWrites(call.io), it);
    }
  }

  lemma SurvivorsAreOld(items: seq<Item>, key: Key, failed: set<nat>, it: Item)
    requires it in Surviving(items, key, 0, failed)
    ensures it in items
  {
    hide Matches, Surviving;
    SurvivingMembers(items, key, 0, failed, it);
    SelectMembers(items, key);
  }

  lemma AbsentScopes(w: World, env: Env, call: Call)
    requires call.user !in w.configs && !call.Install? && !call.InstallScope?
    ensures Items(Apply(w, env, call).1, call.user) == Items(w, call.user) == []
    ensures HistoryHolds(w, env, call)
  {
    hide Apply, MakeAppIdentifier;
    NoConfigNoChange(w, env, call);
    assert Select([], ByUrl("")) == [];
    assert IsCleanup(call) ==> Count(Items(w, call.user), KeyOf(call)) == 0;
  }

  /** While the guard holds, a call changes the scope records exactly as its return code says. */
  lemma ScopesFollow(w: World, env: Env, call: Call)
    requires UserInv(w, call.user, GetMaxInstallNum(env)) && Admissible(w, call) && HistoryHolds(w, env, call)
    ensures var (ret, w2) := Apply(w, env, call);
            ScopeRecordsChange(w, w2, env, call, ret)
  {
    hide UserInv, Admissible, Apply, NewRecord, Items, KeptByInstall, HistoryHolds;
    var u := call.user;
    if call.Install? {
      ScopesOfInstall(w, env, call);
      InstallDropsStale(w, env, u, call.src, call.io);
    } else if call.InstallScope? {
      ScopesOfScopeInstall(w, env, call);
    } else if u !in w.configs {
      AbsentScopes(w, env, call);
    } else {
      match call {
        case Uninstall(_, _, _) => ScopesOfUninstall(w, env, call);
        case UninstallScope(_, _, _, _, _) => ScopesOfScopeUninstall(w, env, call);
        case Update(_, _) => ScopesOfUpdate(w, env, call);
        case _ =>
          CleanupApplies(w, env, call);
          ScopesOfCleanup(w, env, call);
      }
    }
  }

  lemma ScopesOfUpdate(w: World, env: Env, call: Call)
    requires call.Update? && UserInv(w, call.user, GetMaxInstallNum(env))
    ensures Apply(w, env, call).1 == w
  {
    UpdateIsIdle(w, env, call, GetMaxInstallNum(env));
  }

  /** When it fails, a scope record goes unreported, or stays where its removal was reported. */
  lemma ScopesBreak(w: World, env: Env, call: Call)
    requires UserInv(w, call.user, GetMaxInstallNum(env)) && Admissible(w, call) && !HistoryHolds(w, env, call)
    ensures var (ret, w2) := Apply(w, env, call);
            exists it :: it in Items(w, call.user) && it.srcPath.Some?
              && if call.Install? then it !in Items(w2, call.user)
                 else IsCleanup(call) && ret == ERR_OK && it in Items(w2, call.user) && Removes(call, ret, it)
  {
    hide UserInv, Admissible, Apply, Items, KeptByInstall, CleanupWritesHold, Removes;
    assert call.Install? || IsCleanup(call);
    hide HistoryHolds;
    if call.Install? {
      ScopesOfInstall(w, env, call);
    } else if call.user in w.configs {
      CleanupApplies(w, env, call);
      ScopesOfCleanup(w, env, call);
    } else {
      AbsentScopes(w, env, call);
    }
  }
}
