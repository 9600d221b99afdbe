/**
  Runs in which no removal is left half done: every scope record keeps its file, so the stale loop
  of an install never meets one, and scope queries follow the history.
 */
module LiveRuns {
  import opened Wrappers
  import opened Paths
  import opened FileCopy
  import opened RecordStore
  import opened FontStore
  import opened StoreInvariants
  import opened InstallTheorems
  import opened UninstallTheorems
  import opened StoreRuns
  import opened VersionRuns
  import opened ScopeRuns
  import opened OwnerRuns

  /** A call that deletes scope records can write the config when it does; anything else may fail. */
  ghost predicate LeavesNoHalf(w: World, call: Call)
  {
    && (call.UninstallScope? ==> Write(0) !in call.io.failed)
    && (IsCleanup(call) ==> CleanupWritesHold(w, call.user, KeyOf(call), call.io))
  }

  ghost predicate ScopesLive(w: World, u: int)
  {
    forall it :: it in Items(w, u) && it.srcPath.Some? ==> Live(w, u, it)
  }

  lemma LiveGuards(w: World, env: Env, call: Call)
    requires ScopesLive(w, call.user) && LeavesNoHalf(w, call)
    ensures HistoryHolds(w, env, call)
  {
    hide Live, Stops, CleanupWritesHold, Named, Items;
    if call.Install? {
      var names, u := FullNamesByFd(env, call.src.content), call.user;
      var s := StopAt(w, u, names, 0, call.io);
      StopAtIs(w, u, names, 0, call.io);
      forall it | it in Items(w, u) && it.srcPath.Some? ensures !Named(it, names[..s]) {
        if Named(it, names[..s]) {
          DroppedAreStale(w, u, names, s, call.io, it);
        }
      }
    }
  }

  /** Every file but one in a temp directory is still there. */
  predicate KeepsBut(f: Files, g: Files, temp: Path)
  {
    forall p :: p in f && p != temp ==> p in g
  }

  lemma OrphanKeeps(f: Files, g: Files, temp: Path, dest: Path, content: Bytes, orphan: bool)
    requires NothingButOrphan(f, g, temp, dest, content, orphan)
    ensures KeepsBut(f, g, temp)
  {
    forall p | p in f && p != temp ensures p in g {
      assert p in f - {temp};
    }
  }

  lemma PlacedKeeps(f: Files, temp: Path, dest: Path, content: Bytes)
    ensures KeepsBut(f, (f - {temp})[dest := content], temp)
  {
  }

  lemma PlaceIsNoTemp(u: int, it: Item, dir: Path, name: string)
    requires ItemOk(it) && (dir == InstallDir(u) || exists a :: dir == InstallDir(u) + [a])
    ensures Place(u, it) != dir + [TEMP_DIR, name]
  {
    hide InstallDir, ItemOk, Home, RealPath, Resolve;
    PlaceOf(u, it);
    var temp := dir + [TEMP_DIR, name];
    var n := |InstallDir(u)|;
    assert n <= |dir| && temp[n..][|dir| - n] == TEMP_DIR;
    assert Place(u, it)[n..] == Home(it);
  }

  lemma LiveAfterInstall(w: World, env: Env, call: Call)
    requires call.Install? && UserInv(w, call.user, GetMaxInstallNum(env)) && Admissible(w, call)
    requires ScopesLive(w, call.user)
    ensures ScopesLive(Apply(w, env, call).1, call.user)
  {
    hide InstallDir, UserFontPath, DestName, Fresh, InstallGoesThrough, CopyIsStranded, EnsureConfig, Place, ConfigInv,
        InstallFont, FullNamesByFd, KeptByInstall, Items, NothingButOrphan;
    var u, name := call.user, DestName(call.stamp, call.src);
    var temp, dest := InstallDir(u) + [TEMP_DIR, name], InstallDir(u) + [name];
    EnsuredInv(w, u, GetMaxInstallNum(env));
    InstallFontExact(w, env, u, call.src, call.stamp, call.io);
    InstallDropsStale(w, env, u, call.src, call.io);
    ScopesOfInstall(w, env, call);
    var (ret, w2) := InstallFont(w, env, u, call.src, call.stamp, call.io);
    if ret == ERR_OK {
      PlacedKeeps(w.files, temp, dest, call.src.content);
    } else {
      OrphanKeeps(w.files, w2.files, temp, dest, call.src.content, CopyIsStranded(w, env, u, call.src, call.io));
    }
    StillLive(w, w2, u, InstallDir(u), name, GetMaxInstallNum(env));
  }

  lemma StillLive(w: World, w2: World, u: int, dir: Path, name: string, max: int)
    requires UserInv(w, u, max) && ScopesLive(w, u) && KeepsBut(w.files, w2.files, dir + [TEMP_DIR, name])
    requires dir == InstallDir(u) || exists a :: dir == InstallDir(u) + [a]
    ensures forall it :: it in Items(w, u) && it.srcPath.Some? ==> Live(w2, u, it)
  {
    hide InstallDir, Place, ItemOk, RecordsInv;
    ItemsHaveInv(w, u, max);
    ItemsOk(Items(w, u));
    forall it | it in Items(w, u) && it.srcPath.Some? ensures Live(w2, u, it) {
      PlaceIsNoTemp(u, it, dir, name);
    }
  }

  lemma LiveAfterScopeInstall(w: World, env: Env, call: Call)
    requires call.InstallScope? && UserInv(w, call.user, GetMaxInstallNum(env)) && Admissible(w, call)
    requires ScopesLive(w, call.user)
    ensures ScopesLive(Apply(w, env, call).1, call.user)
  {
    InitFaultKeeps(w, env, call);
    hide InstallDir, ScopeFontPath, DestName, Fresh, ScopeCopyArrives, EnsureConfig, Place, ConfigInv, NewRecord,
        InstallScopeFont, FullNamesByFd, Items, NothingButOrphan, MakeAppIdentifier, IsAppIdentifier, ConstructScopeItem;
    var u, name := call.user, DestName(call.stamp, call.src);
    var info := InfoOf(call.scope, call.srcPath, call.bundleName, call.tokenId);
    ScopesOfScopeInstall(w, env, call);
    if call.scope == FONT_SCOPE_APP || call.scope == FONT_SCOPE_SESSION {
      var dir := InstallDir(u) + [info.appIdentifier];
      var temp, dest := dir + [TEMP_DIR, name], dir + [name];
      AppIdentifierIs(call.scope, call.tokenId);
      EnsuredInv(w, u, GetMaxInstallNum(env));
      InstallScopeExact(w, env, u, info, call.src, call.stamp, call.io);
      var (ret, w2) := InstallScopeFont(w, env, u, info, call.src, call.stamp, call.io);
      if ret == ERR_OK {
        PlacedKeeps(w.files, temp, dest, call.src.content);
        NewRecordPlace(u, env, call);
      } else {
        OrphanKeeps(w.files, w2.files, temp, dest, call.src.content,
                    ScopeCopyIsStranded(w, env, u, info, call.src, call.io));
      }
      StillLive(w, w2, u, dir, name, GetMaxInstallNum(env));
    }
  }

  lemma NewRecordPlace(u: int, env: Env, call: Call)
    requires call.InstallScope? && (call.scope == FONT_SCOPE_APP || call.scope == FONT_SCOPE_SESSION)
    ensures var dir := InstallDir(u) + [MakeAppIdentifier(call.scope, call.tokenId)];
            Place(u, NewRecord(call, env)) == dir + [DestName(call.stamp, call.src)]
  {
    var app, name := MakeAppIdentifier(call.scope, call.tokenId), DestName(call.stamp, call.src);
    var x := NewRecord(call, env);
    assert x.path == Some(ScopeFontPath(app, name)) && x.appId == NonEmpty(app);
    hide InstallDir, MakeAppIdentifier, DestName, NewRecord, ScopeFontPath, GetFileName, RealPath, Resolve, IsStamped;
    AppIdentifierIs(call.scope, call.tokenId);
    AppIdentifierIsEntryName(call.scope, app);
    FontNameIsEntryName(name);
    ScopeFontPathResolves(u, app, name);
    assert InstallDir(u) + [app] + [name] == InstallDir(u) + [app, name];
  }

  /** Dropping records and only their own files leaves the other records their files. */
  lemma LiveWithout(w: World, w2: World, u: int, gone: set<Path>, max: int)
    requires UserInv(w, u, max) && ScopesLive(w, u) && w2.files == w.files - gone
    requires forall it :: it in Items(w2, u) && it.srcPath.Some? ==> it in Items(w, u)
    requires forall p :: p in gone ==> exists it :: it in Items(w, u) && it !in Items(w2, u) && p == Place(u, it)
    ensures ScopesLive(w2, u)
  {
    hide Items, Place, RecordsInv;
    ItemsHaveInv(w, u, max);
    forall it | it in Items(w2, u) && it.srcPath.Some? ensures Place(u, it) !in gone {
      if Place(u, it) in gone {
        var x :| x in Items(w, u) && x !in Items(w2, u) && Place(u, it) == Place(u, x);
        DistinctPlaces(Items(w, u), u, x, it);
      }
    }
  }

  lemma LiveAfterUninstall(w: World, env: Env, call: Call)
    requires call.Uninstall? && call.user in w.configs && UserInv(w, call.user, GetMaxInstallNum(env))
    requires ScopesLive(w, call.user)
    ensures ScopesLive(Apply(w, env, call).1, call.user)
  {
    hide RecordsInv, ItemOk, Place, UninstallFont, HasBackslash, First, Items;
    var u, max := call.user, GetMaxInstallNum(env);
    var items, w2 := Items(w, u), Apply(w, env, call).1;
    UninstallFontExact(w, u, call.name, call.io, max);
    ScopesOfUninstall(w, env, call);
    if CanUninstall(w, u, call.name) {
      var x := items[First(items, ByName(call.name))];
      ItemsHaveInv(w, u, max);
      ItemsOk(items);
      assert x in items;
      ItemOkShape(x);
      forall it | it in items && it.srcPath.Some? ensures Place(u, it) != Place(u, x) {
        DistinctPlaces(items, u, x, it);
      }
    }
  }

  lemma LiveAfterScopeUninstall(w: World, env: Env, call: Call)
    requires call.UninstallScope? && call.user in w.configs && UserInv(w, call.user, GetMaxInstallNum(env))
    requires ScopesLive(w, call.user) && LeavesNoHalf(w, call)
    ensures ScopesLive(Apply(w, env, call).1, call.user)
  {
    hide RecordsInv, ItemOk, Place, UninstallScopeFont, HasBackslash, First, Owns;
    var u, max := call.user, GetMaxInstallNum(env);
    var items, w2 := Items(w, u), Apply(w, env, call).1;
    UninstallScopeExact(w, u, call.srcPath, call.bundleName, call.tokenId, call.io, max);
    ScopesOfScopeUninstall(w, env, call);
    if CallerOwns(w, u, call.srcPath, call.bundleName, call.tokenId) && w2 != w {
      var x := items[First(items, ByUrl(call.srcPath))];
      assert x in items;
      LiveWithout(w, w2, u, if HasBackslash(x) then {} else {Place(u, x)}, max);
    }
  }

  lemma LiveAfterCleanup(w: World, env: Env, call: Call)
    requires IsCleanup(call) && call.user in w.configs && UserInv(w, call.user, GetMaxInstallNum(env))
    requires ScopesLive(w, call.user) && LeavesNoHalf(w, call)
    ensures ScopesLive(Cleanup(w, call.user, KeyOf(call), call.io), call.user)
  {
    hide RecordsInv, Place, Cleanup, Matches, CleanupWritesHold, Surviving, HasBackslash, MakeAppIdentifier;
    var u, max, key := call.user, GetMaxInstallNum(env), KeyOf(call);
    var items, w2 := Items(w, u), Cleanup(w, u, key, call.io);
    CleanupWorldExact(w, u, key, call.io, max);
    CleanupCompletesExactly(w, u, key, call.io, max);
    SelectMembers(items, key);
    var gone := RemovedPlaces(Select(items, key), u, 0, call.io);
    forall p | p in gone ensures exists it :: it in items && it !in Items(w2, u) && p == Place(u, it) {
      var j :| 0 <= j < |Select(items, key)| && p == Place(u, Select(items, key)[j]);
      assert Select(items, key)[j] in Select(items, key);
    }
    LiveWithout(w, w2, u, gone, max);
  }

  /** Removing the directory of an app none of whose records is left. */
  lemma LiveAfterTree(w: World, u: int, token: int, max: int)
    requires UserInv(w, u, max) && ScopesLive(w, u)
    requires forall it :: it in Items(w, u) ==> it.appId != Some(MakeAppIdentifier(FONT_SCOPE_APP, token))
    ensures ScopesLive(w.(files := RemoveTree(w.files, InstallDir(u) + [MakeAppIdentifier(FONT_SCOPE_APP, token)])), u)
  {
    hide RecordsInv, Place, ItemOk, InstallDir, MakeAppIdentifier, IsAppIdentifier;
    var app := MakeAppIdentifier(FONT_SCOPE_APP, token);
    AppIdentifierIs(FONT_SCOPE_APP, token);
    AppIdentifierIsEntryName(FONT_SCOPE_APP, app);
    ItemsHaveInv(w, u, max);
    ItemsOk(Items(w, u));
    forall it | it in Items(w, u) && it.srcPath.Some? ensures !(InstallDir(u) + [app] <= Place(u, it)) {
      NotBelowApp(u, it, app);
    }
  }

  lemma LiveAfterApp(w: World, env: Env, call: Call)
    requires call.CleanupApp? && call.user in w.configs && UserInv(w, call.user, GetMaxInstallNum(env))
    requires ScopesLive(w, call.user) && LeavesNoHalf(w, call)
    ensures ScopesLive(Apply(w, env, call).1, call.user)
  {
    var u, max := call.user, GetMaxInstallNum(env);
    var app := MakeAppIdentifier(FONT_SCOPE_APP, call.tokenId);
    var mid := Cleanup(w, u, KeyOf(call), call.io);
    assert Apply(w, env, call).1 == mid
        || Apply(w, env, call).1 == mid.(files := RemoveTree(mid.files, InstallDir(u) + [app]));
    hide Apply, Cleanup, ConfigInv, RemoveTree, InstallDir, MakeAppIdentifier, CleanupWritesHold, ScopesLive;
    LiveAfterCleanup(w, env, call);
    CleanupCompletesExactly(w, u, ByApp(app), call.io, max);
    CleanupWorldExact(w, u, ByApp(app), call.io, max);
    LiveAfterTree(mid, u, call.tokenId, max);
  }

  lemma LiveKept(w: World, env: Env, call: Call)
    requires UserInv(w, call.user, GetMaxInstallNum(env)) && Admissible(w, call)
    requires ScopesLive(w, call.user) && LeavesNoHalf(w, call)
    ensures ScopesLive(Apply(w, env, call).1, call.user)
  {
    assert call.CleanupUser? || call.CleanupApps? ==>
        Apply(w, env, call).1 == Cleanup(w, call.user, KeyOf(call), call.io);
    hide Apply, ScopesLive, LeavesNoHalf, UserInv, Admissible, Cleanup;
    if call.Install? {
      LiveAfterInstall(w, env, call);
    } else if call.InstallScope? {
      LiveAfterScopeInstall(w, env, call);
    } else if call.user !in w.configs {
      AbsentScopes(w, env, call);
      NothingToLive(Apply(w, env, call).1, call.user);
    } else {
      match call {
        case Uninstall(_, _, _) => LiveAfterUninstall(w, env, call);
        case UninstallScope(_, _, _, _, _) => LiveAfterScopeUninstall(w, env, call);
        case CleanupApp(_, _, _) => LiveAfterApp(w, env, call);
        case Update(_, _) => ScopesOfUpdate(w, env, call);
        case _ => LiveAfterCleanup(w, env, call);
      }
    }
  }

  lemma NothingToLive(w: World, u: int)
    requires Items(w, u) == []
    ensures ScopesLive(w, u)
  {
  }

  lemma OtherUserLive(w: World, w2: World, u: int, v: int)
    requires OnlyUser(w, w2, u) && u != v && ScopesLive(w, v)
    ensures ScopesLive(w2, v)
  {
    hide InstallDir, Home;
    OtherConfig(w, w2, u, v);
    forall it | it in Items(w, v) && it.srcPath.Some? ensures Live(w2, v, it) {
      assert InstallDir(v) <= Place(v, it);
      if InstallDir(u) <= Place(v, it) {
        InstallDirsApart(u, v, Place(v, it));
      }
    }
  }

  /** Every call can be made and leaves no half-done removal of scope records. */
  ghost predicate WholeRun(w: World, env: Env, calls: seq<Call>)
    decreases |calls|
  {
    calls != [] ==>
      Admissible(w, calls[0]) && LeavesNoHalf(w, calls[0]) && WholeRun(Apply(w, env, calls[0]).1, env, calls[1..])
  }

  lemma {:induction false} WholeRunHolds(w: World, env: Env, calls: seq<Call>)
    requires WorldInv(w, GetMaxInstallNum(env)) && WholeRun(w, env, calls) && forall u: int :: ScopesLive(w, u)
    ensures AdmissibleRun(w, env, calls) && AlwaysHolds(w, env, calls)
    decreases |calls|
  {
    hide Apply, Admissible, LeavesNoHalf, HistoryHolds, ScopesLive, OnlyUser, ConfigInv;
    if calls != [] {
      var w2 := Apply(w, env, calls[0]).1;
      OneUserPerCall(w, env, calls[0]);
      ApplyKeepsConfigInv(w, env, calls[0]);
      InvOfOneUser(w, w2, calls[0].user, GetMaxInstallNum(env));
      LiveGuards(w, env, calls[0]);
      LiveKept(w, env, calls[0]);
      forall v: int ensures ScopesLive(w2, v) {
        if v != calls[0].user {
          OtherUserLive(w, w2, calls[0].user, v);
        }
      }
      WholeRunHolds(w2, env, calls[1..]);
    }
  }

  /**
    After any run from an empty store whose scope removals are not left half done, whatever else
    fails, a query answers a scope exactly for the owner of the latest effective install of the url.
   */
  lemma ScopeQueryFollowsHistory(env: Env, calls: seq<Call>, u: int, url: string, bundle: string, token: int)
    requires WholeRun(EMPTY_WORLD, env, calls)
    ensures GetFontScope(Run(EMPTY_WORLD, env, calls), u, url, bundle, token)
            == Answer(History(EMPTY_WORLD, env, calls, map[]), u, url, bundle, token)
  {
    assert forall v: int :: Items(EMPTY_WORLD, v) == [];
    assert QueriesFollow(EMPTY_WORLD, map[]);
    hide WholeRun, Run, History, GetFontScope, Answer, AlwaysHolds, AlwaysFollows;
    WholeRunHolds(EMPTY_WORLD, env, calls);
    QueriesFollowExactly(EMPTY_WORLD, env, calls, map[]);
    assert QueriesFollow(Run(EMPTY_WORLD, env, calls), History(EMPTY_WORLD, env, calls, map[]));
  }

  // ----- A removal left half done -----

  /** A scope install that works, on an empty store. */
  predicate FirstInstall(env: Env, a: Call)
  {
    && a.InstallScope? && (a.scope == FONT_SCOPE_APP || a.scope == FONT_SCOPE_SESSION) && a.srcPath != ""
    && FullNamesByFd(env, a.src.content) != [] && '\\' !in GetFileName(a.src.path)
    && a.io.failed == {} && CopySucceeds(a.src.content, a.io.replies)
  }

  /** The owner's uninstall of it, which removes the file and fails to write the config. */
  predicate HalfRemoval(a: Call, b: Call)
    requires a.InstallScope?
  {
    b.UninstallScope? && b == UninstallScope(a.user, a.srcPath, a.bundleName, a.tokenId, b.io) && b.io.failed == {Write(0)}
  }

  /** A user-level install of a font that shares a name with it. */
  predicate SharesName(env: Env, a: Call, c: Call)
    requires a.InstallScope?
  {
    && c.Install? && c.user == a.user && c.io.failed == {}
    && exists n :: n in FullNamesByFd(env, a.src.content) && n in FullNamesByFd(env, c.src.content)
  }

  lemma FirstInstallWorks(env: Env, a: Call)
    requires FirstInstall(env, a)
    ensures var (ret, w) := Apply(EMPTY_WORLD, env, a);
      && ret == ERR_OK && Items(w, a.user) == [NewRecord(a, env)] && a.user in w.configs
      && w.files.Keys == {Place(a.user, NewRecord(a, env))}
      && UserInv(w, a.user, GetMaxInstallNum(env))
  {
    var w, info, name := EMPTY_WORLD, InfoOf(a.scope, a.srcPath, a.bundleName, a.tokenId), DestName(a.stamp, a.src);
    assert Items(w, a.user) == [];
    assert ScopeInstallGoesThrough(w, env, a.user, info, a.src, a.io);
    assert Admissible(w, a);
    hide InstallScopeFont, MakeAppIdentifier, ScopeFontPath, InstallDir, DestName, NewRecord, Place, RecordsInv,
        FullNamesByFd, ScopeInstallGoesThrough, Fresh;
    AppIdentifierIs(a.scope, a.tokenId);
    EnsuredInv(w, a.user, GetMaxInstallNum(env));
    InstallScopeExact(w, env, a.user, info, a.src, a.stamp, a.io);
    ScopesOfScopeInstall(w, env, a);
    NewRecordPlace(a.user, env, a);
  }

  lemma NewRecordParts(env: Env, a: Call, x: Item, name: string)
    requires FirstInstall(env, a) && x == NewRecord(a, env) && IsStamped(name)
    ensures x.srcPath == Some(a.srcPath) && x.names == Some(FullNamesByFd(env, a.src.content))
    ensures Owns(ParseScopeRecord(x), a.bundleName, a.tokenId) && !HasBackslash(x)
    ensures x.path.Some? && x.path != Some(UserFontPath(name))
  {
    var app, file := MakeAppIdentifier(a.scope, a.tokenId), DestName(a.stamp, a.src);
    assert x.path == Some(ScopeFontPath(app, file)) && x.scope == Some(a.scope) && x.appId == NonEmpty(app);
    assert x.srcPath == Some(a.srcPath) && x.names == Some(FullNamesByFd(env, a.src.content));
    assert x.bundle == NonEmpty(a.bundleName);
    hide NewRecord, DestName, MakeAppIdentifier, FullNamesByFd, RealPath, Resolve, GetFileName, FirstInstall;
    AppIdentifierIs(a.scope, a.tokenId);
    AppIdentifierIsEntryName(a.scope, app);
    FontNameIsEntryName(file);
    ScopeFontPathResolves(0, app, file);
    PathsDiffer(app, file, name);
  }

  lemma PathsDiffer(app: string, file: string, name: string)
    requires app != "" && !IsStamped(app) && IsStamped(name)
    ensures ScopeFontPath(app, file) != UserFontPath(name)
  {
    hide IsStamped;
    assert ScopeFontPath(app, file)[|INSTALL_PATH_APP|] == app[0];
    assert name != "" ==> UserFontPath(name)[|INSTALL_PATH_APP|] == name[0];
    StampedByHead(app, name);
  }

  lemma StampedByHead(a: string, b: string)
    requires a != "" && !IsStamped(a) && IsStamped(b)
    ensures b != "" && a[0] != b[0]
  {
  }

  lemma HalfRemovalStrands(w: World, env: Env, a: Call, b: Call, x: Item)
    requires FirstInstall(env, a) && HalfRemoval(a, b) && x == NewRecord(a, env)
    requires UserInv(w, a.user, GetMaxInstallNum(env)) && a.user in w.configs && Items(w, a.user) == [x]
    requires w.files.Keys == {Place(a.user, x)}
    ensures Apply(w, env, b) == (ERR_SYSTEM_ERROR, w.(files := map[]))
  {
    NewRecordParts(env, a, x, "_");
    hide UninstallScopeFont, Place, HasBackslash, Owns, NewRecord, RecordsInv, ParseScopeRecord, FirstInstall;
    FirstIs([x], ByUrl(a.srcPath), 0);
    UninstallScopeExact(w, a.user, a.srcPath, a.bundleName, a.tokenId, b.io, GetMaxInstallNum(env));
    assert w.files - {Place(a.user, x)} == map[];
  }

  /** The install reaches the stale record and drops it. */
  lemma ReachesStale(w: World, env: Env, a: Call, c: Call, x: Item)
    requires a.InstallScope? && SharesName(env, a, c) && Items(w, a.user) == [x] && w.files == map[]
    requires x.names == Some(FullNamesByFd(env, a.src.content)) && x.srcPath.Some?
    ensures !HistoryHolds(w, env, c)
  {
    hide FullNamesByFd, Place, Items;
    var names, io := FullNamesByFd(env, c.src.content), c.io;
    forall j | 0 <= j < |names| ensures !Stops(w, a.user, names, j, io) {
      assert Write(j) !in io.failed;
    }
    StopAtIs(w, a.user, names, 0, io);
    assert StopAt(w, a.user, names, 0, io) == |names| && names[..|names|] == names;
    var n :| n in FullNamesByFd(env, a.src.content) && n in names;
    assert Matches(x, ByName(n)) && Named(x, names) && x in Items(w, a.user);
  }

  lemma InstallForgets(w: World, env: Env, a: Call, c: Call, x: Item)
    requires a.InstallScope? && SharesName(env, a, c) && Items(w, a.user) == [x] && x.srcPath == Some(a.srcPath)
    requires UserInv(w, a.user, GetMaxInstallNum(env)) && Admissible(w, c) && !HistoryHolds(w, env, c)
    ensures GetFontScope(Apply(w, env, c).1, a.user, a.srcPath, a.bundleName, a.tokenId) == ERR_SCOPE_FONT_NOT_FOUND
  {
    hide Apply, Admissible, HistoryHolds, KeptByInstall, GetFontScope, UserInv, FullNamesByFd;
    var w2 := Apply(w, env, c).1;
    ScopesOfInstall(w, env, c);
    InstallDropsStale(w, env, a.user, c.src, c.io);
    assert forall it: Item :: it in Items(w2, a.user) ==> it.srcPath != x.srcPath;
    if GetFontScope(w2, a.user, a.srcPath, a.bundleName, a.tokenId) != ERR_SCOPE_FONT_NOT_FOUND {
      FoundByUrl(w2, a.user, a.srcPath, a.bundleName, a.tokenId);
    }
  }

  lemma EmptyIsFree(w: World, env: Env, c: Call, x: Item)
    requires c.Install? && w.files == map[] && Items(w, c.user) == [x]
    requires x.path != Some(UserFontPath(DestName(c.stamp, c.src)))
    ensures Admissible(w, c)
  {
    hide UserFontPath, DestName, InstallDir;
  }

  /**
    What the excluded case does: after a scope uninstall that removed the file and failed to write,
    which reports an error, a user-level install of a font with a common name drops the record, and
    the owner's query finds nothing although no removal was ever reported done.
   */
  lemma HalfRemovalLosesAnswer(env: Env, a: Call, b: Call, c: Call)
    requires FirstInstall(env, a) && HalfRemoval(a, b) && SharesName(env, a, c)
    ensures var w, ledger := Run(EMPTY_WORLD, env, [a, b, c]), History(EMPTY_WORLD, env, [a, b, c], map[]);
      && Answer(ledger, a.user, a.srcPath, a.bundleName, a.tokenId) == a.scope
      && GetFontScope(w, a.user, a.srcPath, a.bundleName, a.tokenId) == ERR_SCOPE_FONT_NOT_FOUND
  {
    assert a.InstallScope? && b.UninstallScope? && c.Install? && c.user == b.user == a.user && b.srcPath == a.srcPath;
    hide Apply, NewRecord, GetFontScope, FirstInstall, HalfRemoval, SharesName, UserFontPath, DestName, Items, ConfigInv,
        Run, History;
    var x, w1 := NewRecord(a, env), Apply(EMPTY_WORLD, env, a).1;
    FirstInstallWorks(env, a);
    NewRecordParts(env, a, x, DestName(c.stamp, c.src));
    HalfRemovalStrands(w1, env, a, b, x);
    var w2 := w1.(files := map[]);
    SameConfigs(w1, w2, a.user);
    EmptyIsFree(w2, env, c, x);
    ReachesStale(w2, env, a, c, x);
    InstallForgets(w2, env, a, c, x);
    ThreeCalls(EMPTY_WORLD, env, a, b, c);
    var owner := Owner(a.bundleName, a.scope, a.tokenId);
    assert Post(map[], a, ERR_OK) == map[(a.user, a.srcPath) := owner];
  }

  lemma SameConfigs(w: World, w2: World, u: int)
    requires w2.configs == w.configs
    ensures Items(w2, u) == Items(w, u)
  {
  }

  lemma ThreeCalls(w: World, env: Env, a: Call, b: Call, c: Call)
    requires a.InstallScope? && b.UninstallScope? && c.Install?
    ensures var (r1, w1) := Apply(w, env, a);
            var (r2, w2) := Apply(w1, env, b);
            var (r3, w3) := Apply(w2, env, c);
            && Run(w, env, [a, b, c]) == w3
            && History(w, env, [a, b, c], map[]) == Post(Post(Post(map[], a, r1), b, r2), c, r3)
  {
    hide Apply, Post;
    var r1, w1 := Apply(w, env, a).0, Apply(w, env, a).1;
    var r2, w2 := Apply(w1, env, b).0, Apply(w1, env, b).1;
    OneCall(w, env, a, [b, c], map[]);
    OneCall(w1, env, b, [c], Post(map[], a, r1));
    OneCall(w2, env, c, [], Post(Post(map[], a, r1), b, r2));
    assert [a] + [b, c] == [a, b, c] && [b] + [c] == [b, c] && [c] + [] == [c];
  }

  lemma OneCall(w: World, env: Env, call: Call, rest: seq<Call>, ledger: Ledger)
    ensures var (ret, w2) := Apply(w, env, call);
            && Run(w, env, [call] + rest) == Run(w2, env, rest)
            && History(w, env, [call] + rest, ledger) == History(w2, env, rest, Post(ledger, call, ret))
  {
    hide Apply, Post;
    assert ([call] + rest)[1..] == rest;
  }

  lemma InputOf(env: Env, font: Source, replies: seq<Reply>, url: string) returns (a: Call, b: Call, c: Call)
    requires FullNamesByFd(env, font.content) != [] && '\\' !in GetFileName(font.path)
    requires CopySucceeds(font.content, replies) && url != ""
    ensures FirstInstall(env, a) && HalfRemoval(a, b) && SharesName(env, a, c)
  {
    hide FullNamesByFd, CopySucceeds, GetFileName;
    a := InstallScope(0, FONT_SCOPE_APP, url, "app", 1, font, "_", Io({}, replies));
    b := UninstallScope(0, url, "app", 1, Io({Write(0)}, []));
    c := Install(0, font, "_", Io({}, replies));
    assert FullNamesByFd(env, font.content)[0] in FullNamesByFd(env, font.content);
  }

  /** An input of that kind. */
  lemma HalfRemovalInput() returns (env: Env, a: Call, b: Call, c: Call)
    ensures FirstInstall(env, a) && HalfRemoval(a, b) && SharesName(env, a, c)
  {
    env := Env(DEFAULT_MAX_INSTALL_NUM, content => ["F"]);
    var font := Source("", [0]);
    assert FullNamesByFd(env, font.content) == ["F"] && CopySucceeds(font.content, [Sent(1)]);
    assert '\\' !in GetFileName(font.path);
    hide FullNamesByFd, CopySucceeds, GetFileName, FirstInstall, HalfRemoval, SharesName;
    a, b, c := InputOf(env, font, [Sent(1)], "url");
  }
}
