/**
  Calls without failing removals keep the files below an install directory exactly the files
  of its records.
 */
module FileRuns {
  import opened Wrappers
  import opened Paths
  import opened FileCopy
  import opened RecordStore
  import opened FontStore
  import opened StoreInvariants
  import opened InstallTheorems
  import opened UninstallTheorems
  import opened StoreRuns

  // ----- Files and records -----

  /** Below the user's install directory, and not in a temp directory. */
  predicate Stored(u: int, p: Path)
  {
    InstallDir(u) <= p && TEMP_DIR !in p[|InstallDir(u)|..]
  }

  function StoredFiles(files: Files, u: int): set<Path>
  {
    set p | p in files && Stored(u, p)
  }

  function Places(items: seq<Item>, u: int): set<Path>
  {
    set it | it in items :: Place(u, it)
  }

  /** The user's stored files are those of the records, all of which the resolver accepts. */
  ghost predicate Tidy(w: World, u: int, max: int)
  {
    && (u in w.configs ==> ConfigInv(w.configs[u], max))
    && (forall it :: it in Items(w, u) ==> !HasBackslash(it))
    && StoredFiles(w.files, u) == Places(Items(w, u), u)
  }

  lemma TempIsNotStored(u: int, dir: Path, name: string)
    requires InstallDir(u) <= dir
    ensures !Stored(u, dir + [TEMP_DIR, name])
  {
    hide InstallDir;
    var p := dir + [TEMP_DIR, name];
    assert p[|InstallDir(u)|..][|dir| - |InstallDir(u)|] == TEMP_DIR;
  }

  lemma StoredAgree(f: Files, g: Files, u: int, temp: Path)
    requires AgreeBut(f, g, temp) && !Stored(u, temp)
    ensures StoredFiles(f, u) == StoredFiles(g, u)
  {
    hide InstallDir, Stored;
    forall p | p != temp ensures p in f <==> p in g {
      assert p in f <==> p in f - {temp};
      assert p in g <==> p in g - {temp};
    }
  }

  lemma StoredPlus(f: Files, u: int, temp: Path, dest: Path, content: Bytes)
    requires !Stored(u, temp) && Stored(u, dest)
    ensures StoredFiles((f - {temp})[dest := content], u) == StoredFiles(f, u) + {dest}
  {
    hide Stored;
  }

  lemma StoredMinus(f: Files, u: int, gone: set<Path>)
    ensures StoredFiles(f - gone, u) == StoredFiles(f, u) - gone
  {
    hide Stored;
  }

  lemma PlaceIsStored(u: int, it: Item)
    requires ItemOk(it)
    ensures Stored(u, Place(u, it))
  {
    hide InstallDir, ItemOk, Home, Resolve, RealPath;
    PlaceOf(u, it);
    assert Place(u, it)[|InstallDir(u)|..] == Home(it);
  }

  lemma PlacesAppend(items: seq<Item>, x: Item, u: int)
    ensures Places(items + [x], u) == Places(items, u) + {Place(u, x)}
  {
    hide Place;
  }

  lemma SamePlaces(items: seq<Item>, items2: seq<Item>, u: int)
    requires forall it :: it in items <==> it in items2
    ensures Places(items, u) == Places(items2, u)
  {
    hide Place;
  }

  /** Dropping some records drops exactly their places. */
  lemma PlacesDrop(items: seq<Item>, kept: seq<Item>, gone: set<Path>, u: int)
    requires RecordsInv(items)
    requires forall it :: it in kept ==> it in items
    requires forall it :: it in items && it !in kept ==> Place(u, it) in gone
    requires forall p :: p in gone ==> exists it :: it in items && it !in kept && Place(u, it) == p
    ensures Places(kept, u) == Places(items, u) - gone
  {
    hide Place, RecordsInv;
    forall it | it in kept ensures Place(u, it) !in gone {
      if Place(u, it) in gone {
        var x :| x in items && x !in kept && Place(u, x) == Place(u, it);
        DistinctPlaces(items, u, x, it);
      }
    }
  }

  lemma PlacesRemoveAt(items: seq<Item>, i: nat, u: int)
    requires RecordsInv(items) && i < |items|
    ensures Places(RemoveAt(items, i), u) == Places(items, u) - {Place(u, items[i])}
    ensures forall it :: it in RemoveAt(items, i) <==> it in items && it != items[i]
  {
    hide Place;
    OnlyOne(items, i);
    RemoveAtMembers(items, i);
    hide RecordsInv;
    PlacesDrop(items, RemoveAt(items, i), {Place(u, items[i])}, u);
  }

  // ----- Calls that leave no half-done removal -----

  /** Removals succeed, and so do config writes that follow a removal; file names have no backslash. */
  ghost predicate Orderly(call: Call)
  {
    && (forall k: nat :: Remove(k) !in call.io.failed)
    && (call.Install? || call.InstallScope? || NoWriteFault(call.io))
    && (call.Install? || call.InstallScope? ==> '\\' !in GetFileName(call.src.path))
  }

  lemma TidyAppend(w: World, w2: World, u: int, max: int, x: Item, temp: Path, content: Bytes)
    requires Tidy(w, u, max) && ConfigInv(ConfigOf(w2, u), max)
    requires Items(w2, u) == Items(w, u) + [x] && !HasBackslash(x)
    requires w2.files == (w.files - {temp})[Place(u, x) := content] && !Stored(u, temp)
    ensures Tidy(w2, u, max)
  {
    hide Place, Stored, RecordsInv, HasBackslash;
    AppendedIsStored(w2, u, max, Items(w, u), x);
    PlacesAppend(Items(w, u), x, u);
    StoredPlus(w.files, u, temp, Place(u, x), content);
  }

  lemma TidySame(w: World, w2: World, u: int, max: int, temp: Path)
    requires Tidy(w, u, max) && (u in w2.configs ==> ConfigInv(w2.configs[u], max))
    requires forall it :: it in Items(w, u) <==> it in Items(w2, u)
    requires AgreeBut(w.files, w2.files, temp) && !Stored(u, temp)
    ensures Tidy(w2, u, max)
  {
    hide Place, Stored, ConfigInv, HasBackslash, AgreeBut;
    SamePlaces(Items(w, u), Items(w2, u), u);
    StoredAgree(w.files, w2.files, u, temp);
  }

  lemma InstallEffect(w: World, env: Env, call: Call)
    requires call.Install? && Tidy(w, call.user, GetMaxInstallNum(env)) && Admissible(w, call) && Orderly(call)
    ensures var (ret, w2) := Apply(w, env, call);
            Tidy(w2, call.user, GetMaxInstallNum(env))
  {
    hide InstallDir, UserFontPath, InstallFont, RecordsInv, DestName, Fresh, Stored, AgreeBut, Unnamed, Place, Named,
        ItemOk, HasBackslash, EnsureConfig, Live, Places, StoredFiles;
    var u, max := call.user, GetMaxInstallNum(env);
    var names, name := FullNamesByFd(env, call.src.content), DestName(call.stamp, call.src);
    EnsuredInv(w, u, max);
    InstallFontExact(w, env, u, call.src, call.stamp, call.io);
    InitFaultKeeps(w, env, call);
    var (ret, w2) := InstallFont(w, env, u, call.src, call.stamp, call.io);
    var items, items2 := Items(w, u), Items(w2, u);
    TidyIsLive(w, u, max);
    TempIsNotStored(u, InstallDir(u), name);
    if ret == ERR_OK {
      FontNameOfStamp(call.stamp, call.src);
      InstallOkDroppedNothing(w, env, u, call.src, call.io);
      var x := ConstructItem(UserFontPath(name), names);
      UserPathParts(u, name, names);
      InstalledWasInitialised(w, env, u, call.src, call.stamp, call.io);
      TidyAppend(w, w2, u, max, x, InstallDir(u) + [TEMP_DIR, name], call.src.content);
    } else {
      InstallDropsStale(w, env, u, call.src, call.io);
      forall it ensures it in items <==> it in items2 {
        assert it in items ==> Live(w, u, it);
      }
      KeepsOrAbsent(w, w2, u, env, call);
      TidySame(w, w2, u, max, InstallDir(u) + [TEMP_DIR, name]);
    }
  }

  lemma KeepsOrAbsent(w: World, w2: World, u: int, env: Env, call: Call)
    requires call.user == u && w2 == Apply(w, env, call).1
    requires u in w.configs ==> ConfigInv(w.configs[u], GetMaxInstallNum(env))
    requires ConfigInv(ConfigOf(w2, u), GetMaxInstallNum(env)) || w2 == w
    ensures u in w2.configs ==> ConfigInv(w2.configs[u], GetMaxInstallNum(env))
  {
    hide Apply, RecordsInv;
  }

  lemma AppendedIsStored(w: World, u: int, max: int, items: seq<Item>, x: Item)
    requires ConfigInv(ConfigOf(w, u), max) && Items(w, u) == items + [x]
    ensures Stored(u, Place(u, x))
  {
    hide ItemOk, InstallDir, Place, Stored;
    assert (items + [x])[|items|] == x;
    PlaceIsStored(u, x);
  }

  lemma TidyIsLive(w: World, u: int, max: int)
    requires Tidy(w, u, max)
    ensures forall it :: it in Items(w, u) ==> Live(w, u, it)
  {
    hide Place, InstallDir, ConfigInv;
    forall it | it in Items(w, u) ensures Live(w, u, it) {
      assert Place(u, it) in Places(Items(w, u), u);
    }
  }

  lemma InstallOkDroppedNothing(w: World, env: Env, u: int, src: Source, io: Io)
    requires InstallGoesThrough(w, env, u, src, io)
    requires forall it :: it in Items(w, u) ==> Live(w, u, it)
    ensures KeptByInstall(w, env, u, src, io) == Items(w, u)
  {
    hide InstallGoesThrough, KeptByInstall, Named, Live, Unnamed;
    var names := FullNamesByFd(env, src.content);
    SuccessDropsNamed(w, env, u, src, io);
    UnnamedAll(Items(w, u), names);
  }

  lemma UninstallEffect(w: World, env: Env, call: Call)
    requires call.Uninstall? && Tidy(w, call.user, GetMaxInstallNum(env)) && Orderly(call)
    requires call.user in w.configs
    ensures var (ret, w2) := Apply(w, env, call);
            Tidy(w2, call.user, GetMaxInstallNum(env))
  {
    hide InstallDir, UninstallFont, RecordsInv, Stored, Place, ItemOk, HasBackslash, First, Places, StoredFiles;
    var u := call.user;
    var items := Items(w, u);
    UninstallFontExact(w, u, call.name, call.io, GetMaxInstallNum(env));
    if CanUninstall(w, u, call.name) {
      var i := First(items, ByName(call.name));
      PlacesRemoveAt(items, i, u);
      StoredMinus(w.files, u, {Place(u, items[i])});
      ItemsOk(items);
      assert items[i] in items;
      ItemOkShape(items[i]);
    }
  }

  /** What InstallScopeExact needs to know about a call. */
  lemma ScopeCall(w: World, env: Env, call: Call)
    requires call.InstallScope? && Tidy(w, call.user, GetMaxInstallNum(env)) && Admissible(w, call)
    requires call.scope == FONT_SCOPE_APP || call.scope == FONT_SCOPE_SESSION
    ensures var info := InfoOf(call.scope, call.srcPath, call.bundleName, call.tokenId);
            && ConfigInv(ConfigOf(EnsureConfig(w, call.user), call.user), GetMaxInstallNum(env))
            && IsAppIdentifier(info.scope, info.appIdentifier)
            && Fresh(w, call.user, ScopeFontPath(info.appIdentifier, DestName(call.stamp, call.src)),
                     InstallDir(call.user) + [info.appIdentifier, DestName(call.stamp, call.src)])
  {
    hide InstallDir, ScopeFontPath, ConfigInv, DestName, Fresh, MakeAppIdentifier, IsAppIdentifier, EnsureConfig, Places,
        StoredFiles;
    EnsuredInv(w, call.user, GetMaxInstallNum(env));
    AppIdentifierIs(call.scope, call.tokenId);
  }

  lemma InstallScopeOk(w: World, env: Env, call: Call)
    requires call.InstallScope? && Tidy(w, call.user, GetMaxInstallNum(env)) && Admissible(w, call) && Orderly(call)
    requires call.scope == FONT_SCOPE_APP || call.scope == FONT_SCOPE_SESSION
    requires Apply(w, env, call).0 == ERR_OK
    ensures var (ret, w2) := Apply(w, env, call);
            Tidy(w2, call.user, GetMaxInstallNum(env))
  {
    hide InstallDir, ScopeFontPath, InstallScopeFont, ConfigInv, DestName, Fresh, Stored, AgreeBut, Place, IsFontName,
        MakeAppIdentifier, ItemOk, HasBackslash, EnsureConfig, IsAppIdentifier, ScopeInstallGoesThrough,
        ConstructScopeItem, ScopeRecord, Tidy, FullNamesByFd;
    var u, max := call.user, GetMaxInstallNum(env);
    var info := InfoOf(call.scope, call.srcPath, call.bundleName, call.tokenId);
    var names, name := FullNamesByFd(env, call.src.content), DestName(call.stamp, call.src);
    ScopeCall(w, env, call);
    InstallScopeExact(w, env, u, info, call.src, call.stamp, call.io);
    var w2 := Apply(w, env, call).1;
    var dir := InstallDir(u) + [info.appIdentifier];
    assert dir + [name] == InstallDir(u) + [info.appIdentifier, name];
    TempIsNotStored(u, dir, name);
    FontNameOfStamp(call.stamp, call.src);
    ScopeNeedsNames(w, env, u, info, call.src, call.io);
    ScopePathParts(u, info, names, name);
    var x := ConstructScopeItem(ScopeRecord(info, names, name));
    TidyAppend(w, w2, u, max, x, dir + [TEMP_DIR, name], call.src.content);
  }

  lemma InstallScopeFails(w: World, env: Env, call: Call)
    requires call.InstallScope? && Tidy(w, call.user, GetMaxInstallNum(env)) && Admissible(w, call) && Orderly(call)
    requires call.scope == FONT_SCOPE_APP || call.scope == FONT_SCOPE_SESSION
    requires Apply(w, env, call).0 != ERR_OK
    ensures var (ret, w2) := Apply(w, env, call);
            Tidy(w2, call.user, GetMaxInstallNum(env))
  {
    hide InstallDir, ScopeFontPath, InstallScopeFont, RecordsInv, DestName, Fresh, Stored, AgreeBut, Place,
        MakeAppIdentifier, ItemOk, HasBackslash, EnsureConfig, IsAppIdentifier, ScopeInstallGoesThrough,
        ConstructScopeItem, ScopeRecord, Places, StoredFiles, FullNamesByFd;
    var u, max := call.user, GetMaxInstallNum(env);
    var info := InfoOf(call.scope, call.srcPath, call.bundleName, call.tokenId);
    var name := DestName(call.stamp, call.src);
    ScopeCall(w, env, call);
    InstallScopeExact(w, env, u, info, call.src, call.stamp, call.io);
    InitFaultKeeps(w, env, call);
    var w2 := Apply(w, env, call).1;
    var dir := InstallDir(u) + [info.appIdentifier];
    TempIsNotStored(u, dir, name);
    KeepsOrAbsent(w, w2, u, env, call);
    TidySame(w, w2, u, max, dir + [TEMP_DIR, name]);
  }

  lemma InstallScopeEffect(w: World, env: Env, call: Call)
    requires call.InstallScope? && Tidy(w, call.user, GetMaxInstallNum(env)) && Admissible(w, call) && Orderly(call)
    ensures var (ret, w2) := Apply(w, env, call);
            Tidy(w2, call.user, GetMaxInstallNum(env))
  {
    hide Tidy, Admissible, Orderly, InstallScopeFont;
    InitFaultKeeps(w, env, call);
    if call.scope != FONT_SCOPE_APP && call.scope != FONT_SCOPE_SESSION {
      assert Apply(w, env, call) == (ERR_INVALID_PARAM, w);
    } else if Apply(w, env, call).0 == ERR_OK {
      InstallScopeOk(w, env, call);
    } else {
      InstallScopeFails(w, env, call);
    }
  }

  lemma ScopeNeedsNames(w: World, env: Env, u: int, info: ScopeInstall, src: Source, io: Io)
    requires ScopeInstallGoesThrough(w, env, u, info, src, io)
    ensures FullNamesByFd(env, src.content) != [] && InitDir !in io.failed
  {
  }

  lemma UninstallScopeEffect(w: World, env: Env, call: Call)
    requires call.UninstallScope? && Tidy(w, call.user, GetMaxInstallNum(env)) && Orderly(call)
    requires call.user in w.configs
    ensures var (ret, w2) := Apply(w, env, call);
            Tidy(w2, call.user, GetMaxInstallNum(env))
  {
    hide InstallDir, UninstallScopeFont, RecordsInv, Stored, Place, ItemOk, HasBackslash, First, Places, StoredFiles, Owns;
    var u := call.user;
    var items := Items(w, u);
    UninstallScopeExact(w, u, call.srcPath, call.bundleName, call.tokenId, call.io, GetMaxInstallNum(env));
    if CallerOwns(w, u, call.srcPath, call.bundleName, call.tokenId) {
      var i := First(items, ByUrl(call.srcPath));
      PlacesRemoveAt(items, i, u);
      StoredMinus(w.files, u, {Place(u, items[i])});
      assert items[i] in items;
      OneUrl(items, i);
    }
  }

  /** Without failing removals a cleanup removes every resolvable file of its records. */
  lemma AllPlacesRemoved(items: seq<Item>, u: int, io: Io)
    requires forall k: nat :: Remove(k) !in io.failed
    ensures forall it :: it in items && !HasBackslash(it) ==> Place(u, it) in RemovedPlaces(items, u, 0, io)
    ensures forall p :: p in RemovedPlaces(items, u, 0, io) ==> exists it :: it in items && p == Place(u, it)
  {
    hide HasBackslash, Place;
    forall it | it in items && !HasBackslash(it) ensures Place(u, it) in RemovedPlaces(items, u, 0, io) {
      var j :| 0 <= j < |items| && items[j] == it;
      assert Remove(0 + j) !in io.failed;
    }
  }

  lemma CleanupEffect(w: World, u: int, key: Key, io: Io, max: int)
    requires u in w.configs && Tidy(w, u, max) && IsCleanupKey(key)
    requires NoWriteFault(io) && forall k: nat :: Remove(k) !in io.failed
    ensures var w2 := Cleanup(w, u, key, io);
            Tidy(w2, u, max) && (forall it :: it in Items(w2, u) <==> it in Items(w, u) && !Matches(it, key))
  {
    hide InstallDir, Cleanup, RecordsInv, Stored, Place, ItemOk, HasBackslash, Places, StoredFiles, Matches, Select, Without;
    var items := Items(w, u);
    CleanupWorldExact(w, u, key, io, max);
    CleanupCompletesExactly(w, u, key, io, max);
    HoldsAsWrites(w, u, key, io);
    SelectMembers(items, key);
    var gone := RemovedPlaces(Select(items, key), u, 0, io);
    AllPlacesRemoved(Select(items, key), u, io);
    PlacesDrop(items, Without(items, key), gone, u);
    StoredMinus(w.files, u, gone);
  }

  /** Removing an app's directory after its records are gone removes no other record's file. */
  lemma AppTreeIsEmpty(w: World, u: int, token: int, max: int)
    requires Tidy(w, u, max)
    requires forall it :: it in Items(w, u) ==> it.appId != Some(MakeAppIdentifier(FONT_SCOPE_APP, token))
    ensures var app := MakeAppIdentifier(FONT_SCOPE_APP, token);
            Tidy(w.(files := RemoveTree(w.files, InstallDir(u) + [app])), u, max)
  {
    hide InstallDir, RecordsInv, MakeAppIdentifier, IsAppIdentifier, Stored;
    var app := MakeAppIdentifier(FONT_SCOPE_APP, token);
    var dir := InstallDir(u) + [app];
    AppIdentifierIs(FONT_SCOPE_APP, token);
    AppIdentifierIsEntryName(FONT_SCOPE_APP, app);
    var files := RemoveTree(w.files, dir);
    forall p | p in w.files && Stored(u, p) ensures p in files {
      assert p in StoredFiles(w.files, u);
      var it :| it in Items(w, u) && Place(u, it) == p;
      ItemsOk(Items(w, u));
      NotBelowApp(u, it, app);
    }
    assert StoredFiles(files, u) == StoredFiles(w.files, u);
  }

  lemma TidyEffect(w: World, env: Env, call: Call)
    requires Tidy(w, call.user, GetMaxInstallNum(env)) && Admissible(w, call) && Orderly(call)
    ensures var (ret, w2) := Apply(w, env, call);
            Tidy(w2, call.user, GetMaxInstallNum(env))
  {
    var u, max := call.user, GetMaxInstallNum(env);
    assert u in w.configs ==> ConfigInv(w.configs[u], max);
    hide Tidy, Cleanup, InstallDir, RemoveTree, MakeAppIdentifier, Matches, Admissible, ConfigInv;
    if call.Install? {
      InstallEffect(w, env, call);
    } else if call.InstallScope? {
      InstallScopeEffect(w, env, call);
    } else if u !in w.configs {
      AbsentEffect(w, env, call);
    } else {
      match call {
        case Uninstall(_, _, _) => UninstallEffect(w, env, call);
        case UninstallScope(_, _, _, _, _) => UninstallScopeEffect(w, env, call);
        case CleanupApp(_, token, io) => CleanupAppEffect(w, env, call);
        case CleanupUser(_, io) => CleanupEffect(w, u, AnyScope, io, max);
        case CleanupApps(_, io) => CleanupEffect(w, u, AppScope, io, max);
        case Update(_, _) => UpdateIsIdle(w, env, call, max);
        case _ =>
      }
    }
  }

  lemma CleanupAppEffect(w: World, env: Env, call: Call)
    requires call.CleanupApp? && call.user in w.configs
    requires Tidy(w, call.user, GetMaxInstallNum(env)) && Orderly(call)
    ensures var (ret, w2) := Apply(w, env, call);
            Tidy(w2, call.user, GetMaxInstallNum(env))
  {
    hide Tidy, Cleanup, InstallDir, RemoveTree, MakeAppIdentifier, Select;
    var u := call.user;
    var app := MakeAppIdentifier(FONT_SCOPE_APP, call.tokenId);
    CleanupEffect(w, u, ByApp(app), call.io, GetMaxInstallNum(env));
    var w1 := Cleanup(w, u, ByApp(app), call.io);
    AppTreeIsEmpty(w1, u, call.tokenId, GetMaxInstallNum(env));
  }

  lemma AbsentEffect(w: World, env: Env, call: Call)
    requires call.user !in w.configs && !call.Install? && !call.InstallScope?
    requires Tidy(w, call.user, GetMaxInstallNum(env))
    ensures var (ret, w2) := Apply(w, env, call);
            Tidy(w2, call.user, GetMaxInstallNum(env))
  {
    hide InstallDir, Stored, Resolve;
    var (ret, w2) := Apply(w, env, call);
    NoConfigNoChange(w, env, call);
    forall p | p in w.files ensures !Stored(call.user, p) {
      assert Stored(call.user, p) ==> p in StoredFiles(w.files, call.user);
    }
  }

  // ----- Runs -----

  /** Every call can be made and leaves no half-done removal. */
  ghost predicate OrderlyRun(w: World, env: Env, calls: seq<Call>)
    decreases |calls|
  {
    calls != [] ==>
      Admissible(w, calls[0]) && Orderly(calls[0]) && OrderlyRun(Apply(w, env, calls[0]).1, env, calls[1..])
  }

  lemma OtherUserTidy(w: World, w2: World, u: int, v: int, max: int)
    requires OnlyUser(w, w2, u) && u != v && Tidy(w, v, max)
    ensures Tidy(w2, v, max)
  {
    hide InstallDir, RecordsInv, Place, HasBackslash;
    assert v in w2.configs <==> v in w.configs by {
      assert v in w2.configs - {u} <==> v in w.configs - {u};
    }
    if v in w.configs {
      assert (w2.configs - {u})[v] == w2.configs[v] && (w.configs - {u})[v] == w.configs[v];
    }
    forall p | Stored(v, p) ensures p in w2.files <==> p in w.files {
      if InstallDir(u) <= p {
        InstallDirsApart(u, v, p);
      }
    }
    assert StoredFiles(w2.files, v) == StoredFiles(w.files, v);
  }

  lemma {:induction false} RunStaysTidy(w: World, env: Env, calls: seq<Call>)
    requires (forall v: int :: Tidy(w, v, GetMaxInstallNum(env))) && OrderlyRun(w, env, calls)
    ensures forall v: int :: Tidy(Run(w, env, calls), v, GetMaxInstallNum(env))
    decreases |calls|
  {
    hide Tidy, Apply, Admissible, Orderly, OnlyUser;
    if calls != [] {
      var w2 := Apply(w, env, calls[0]).1;
      OneUserPerCall(w, env, calls[0]);
      TidyEffect(w, env, calls[0]);
      forall v: int ensures Tidy(w2, v, GetMaxInstallNum(env)) {
        if v != calls[0].user {
          OtherUserTidy(w, w2, calls[0].user, v, GetMaxInstallNum(env));
        }
      }
      RunStaysTidy(w2, env, calls[1..]);
    }
  }

  /** After any orderly run, the stored files of every user are exactly the files of the records. */
  lemma FilesMatchRecords(env: Env, calls: seq<Call>, u: int)
    requires OrderlyRun(EMPTY_WORLD, env, calls)
    ensures var w := Run(EMPTY_WORLD, env, calls);
            StoredFiles(w.files, u) == Places(Items(w, u), u)
  {
    hide OrderlyRun;
    forall v: int ensures Tidy(EMPTY_WORLD, v, GetMaxInstallNum(env)) {
      assert Items(EMPTY_WORLD, v) == [];
    }
    RunStaysTidy(EMPTY_WORLD, env, calls);
    assert Tidy(Run(EMPTY_WORLD, env, calls), u, GetMaxInstallNum(env));
  }
}
