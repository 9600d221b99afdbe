/**
  Uninstalling, scope fonts and the three cleanups, on configs that keep the record invariants.
 */
module UninstallTheorems {
  import opened Wrappers
  import opened Paths
  import opened FileCopy
  import opened RecordStore
  import opened FontStore
  import opened StoreInvariants
  import opened InstallTheorems

  // ----- UninstallFont -----

  /** The name leads to a user-level record whose file name the resolver accepts. */
  predicate CanUninstall(w: World, u: int, n: string)
  {
    var items := Items(w, u);
    var i := First(items, ByName(n));
    n != "" && i < |items| && items[i].scope.None? && !HasBackslash(items[i])
  }

  lemma UninstallFontExact(w: World, u: int, n: string, io: Io, max: int)
    requires ConfigInv(ConfigOf(w, u), max)
    ensures var items := Items(w, u);
            var i := First(items, ByName(n));
            UninstallFont(w, u, n, io)
            == if !CanUninstall(w, u, n) then (ERR_UNINSTALL_FILE_NOT_EXISTS, w)
               else if Place(u, items[i]) in w.files && Remove(0) in io.failed then (ERR_UNINSTALL_REMOVE_FAIL, w)
               else
                 var w1 := w.(files := w.files - {Place(u, items[i])});
                 if Write(0) in io.failed then (ERR_UNINSTALL_FAIL, w1)
                 else (ERR_OK, WithConfig(w1, u, WithItems(ConfigOf(w, u), RemoveAt(items, i))))
    ensures ConfigInv(ConfigOf(UninstallFont(w, u, n, io).1, u), max)
  {
    hide Resolve, RealPath, Place, Matches, HasBackslash, First, RecordsInv;
    var items := Items(w, u);
    var i := First(items, ByName(n));
    if i < |items| {
      FoundRecord(u, items, i);
    }
  }

  lemma FoundRecord(u: int, items: seq<Item>, i: nat)
    requires RecordsInv(items) && i < |items|
    ensures var it := items[i];
            && it.path.Some? && it.path.value != ""
            && (it.scope.Some? ==> it.scope.value >= 0)
            && Resolve(u, it.path.value) == (if HasBackslash(it) then None else Some(Place(u, it)))
            && First(items, ByPath(it.path.value)) == i
    ensures RecordsInv(RemoveAt(items, i))
  {
    hide Resolve, RealPath, Place, HasBackslash;
    assert ItemOk(items[i]);
    PlaceOf(u, items[i]);
    ItemOkShape(items[i]);
    InvRemoveAt(items, i);
    OnlyOne(items, i);
  }

  /**
    Install then uninstall by any of the font's names gives back the files and the records left
    after stale removal, exactly when the source file name has no backslash; with one, the font
    cannot be uninstalled at all.
   */
  lemma InstallThenUninstall(w: World, env: Env, u: int, src: Source, stamp: Stamp, io: Io, n: string, io2: Io)
    requires ConfigInv(ConfigOf(EnsureConfig(w, u), u), GetMaxInstallNum(env))
    requires Fresh(w, u, UserFontPath(DestName(stamp, src)), InstallDir(u) + [DestName(stamp, src)])
    requires InstallFont(w, env, u, src, stamp, io).0 == ERR_OK
    requires n in env.tool(src.content) && n != "" && io2.failed == {}
    ensures var w2 := InstallFont(w, env, u, src, stamp, io).1;
            var (ret, w3) := UninstallFont(w2, u, n, io2);
            && (ret == ERR_OK <==> '\\' !in GetFileName(src.path))
            && (ret == ERR_OK ==>
                  && Items(w3, u) == Unnamed(Items(w, u), env.tool(src.content))
                  && AgreeBut(w.files, w3.files, InstallDir(u) + [TEMP_DIR, DestName(stamp, src)]))
            && (ret != ERR_OK ==> w3 == w2)
  {
    InstalledNames(w, env, u, src, stamp, io);
    assert forall path: string, names: seq<string> :: n in names ==>
        Matches(ConstructItem(path, names), ByName(n)) && ConstructItem(path, names).scope.None?;
    hide RecordsInv, UserFontPath, Resolve, RealPath, InstallDir, InstallFont, UninstallFont, Unnamed, ItemOk,
        HasBackslash, Place, DestName, Fresh, InstallGoesThrough, KeptByInstall, CopyIsStranded, NothingButOrphan, Live,
        FullNamesByFd, ConstructItem, Matches, CanUninstall, AgreeBut;
    var name := DestName(stamp, src);
    var names := FullNamesByFd(env, src.content);
    var w2 := InstallFont(w, env, u, src, stamp, io).1;
    var kept, x := Unnamed(Items(w, u), names), ConstructItem(UserFontPath(name), names);
    InstalledState(w, env, u, src, stamp, io, n);
    UserPathParts(u, name, names);
    UninstallLast(w2, u, kept, x, n, io2, GetMaxInstallNum(env));
    CopyGone(w.files, InstallDir(u) + [TEMP_DIR, name], InstallDir(u) + [name], src.content);
  }

  /** A font that installed has its own names recorded. */
  lemma InstalledNames(w: World, env: Env, u: int, src: Source, stamp: Stamp, io: Io)
    requires InstallFont(w, env, u, src, stamp, io).0 == ERR_OK
    ensures FullNamesByFd(env, src.content) == env.tool(src.content) && |src.content| <= MAX_FONT_FILE_SIZE
  {
    hide DropStale, PlaceFont, EnsureConfig, DestName;
  }

  lemma CopyGone(files: Files, temp: Path, dest: Path, content: Bytes)
    requires dest !in files && |temp| == |dest| + 1
    ensures AgreeBut(files, (files - {temp})[dest := content] - {dest}, temp)
  {
    assert (files - {temp})[dest := content] - {dest} == files - {temp};
  }

  /** A successful install in the terms its uninstall needs. */
  lemma InstalledState(w: World, env: Env, u: int, src: Source, stamp: Stamp, io: Io, n: string)
    requires ConfigInv(ConfigOf(EnsureConfig(w, u), u), GetMaxInstallNum(env))
    requires Fresh(w, u, UserFontPath(DestName(stamp, src)), InstallDir(u) + [DestName(stamp, src)])
    requires InstallFont(w, env, u, src, stamp, io).0 == ERR_OK && n in FullNamesByFd(env, src.content)
    ensures var w2, name := InstallFont(w, env, u, src, stamp, io).1, DestName(stamp, src);
            var names := FullNamesByFd(env, src.content);
            var kept, x := Unnamed(Items(w, u), names), ConstructItem(UserFontPath(name), names);
            var temp, dest := InstallDir(u) + [TEMP_DIR, name], InstallDir(u) + [name];
            && Items(w2, u) == kept + [x] && ConfigInv(ConfigOf(w2, u), GetMaxInstallNum(env))
            && w2.files == (w.files - {temp})[dest := src.content] && dest !in w.files
            && (forall j :: 0 <= j < |kept| ==> !Matches(kept[j], ByName(n)))
            && names != [] && IsFontName(name)
  {
    assert InstallGoesThrough(w, env, u, src, io) ==> InitDir !in io.failed && FullNamesByFd(env, src.content) != [];
    hide RecordsInv, UserFontPath, InstallDir, InstallFont, Unnamed, DestName, InstallGoesThrough, KeptByInstall,
        CopyIsStranded, NothingButOrphan, Live, FullNamesByFd, Matches, IsFontName, EnsureConfig;
    var name := DestName(stamp, src);
    InstallFontExact(w, env, u, src, stamp, io);
    SuccessDropsNamed(w, env, u, src, io);
    UnnamedMembers(Items(w, u), FullNamesByFd(env, src.content));
    FontNameOfStamp(stamp, src);
    FreshPlace(w, u, UserFontPath(name), InstallDir(u) + [name]);
    var kept := Unnamed(Items(w, u), FullNamesByFd(env, src.content));
    forall j | 0 <= j < |kept| ensures !Matches(kept[j], ByName(n)) {
      assert kept[j] in kept;
    }
  }

  /** Uninstalling the last record by a name no other record has. */
  lemma UninstallLast(w: World, u: int, kept: seq<Item>, x: Item, n: string, io: Io, max: int)
    requires ConfigInv(ConfigOf(w, u), max) && Items(w, u) == kept + [x] && io.failed == {}
    requires (forall j :: 0 <= j < |kept| ==> !Matches(kept[j], ByName(n))) && Matches(x, ByName(n))
    requires n != "" && x.scope.None?
    ensures var (ret, w2) := UninstallFont(w, u, n, io);
            && (ret == ERR_OK <==> !HasBackslash(x))
            && (ret == ERR_OK ==> Items(w2, u) == kept && w2.files == w.files - {Place(u, x)})
            && (ret != ERR_OK ==> w2 == w)
  {
    hide UninstallFont, HasBackslash, Place, Matches, RecordsInv;
    FirstIs(kept + [x], ByName(n), |kept|);
    UninstallFontExact(w, u, n, io, max);
    assert RemoveAt(kept + [x], |kept|) == kept;
  }

  lemma FreshPlace(w: World, u: int, path: string, place: Path)
    requires Fresh(w, u, path, place)
    ensures place !in w.files
  {
    assert place <= place;
  }

  lemma InstalledWasInitialised(w: World, env: Env, u: int, src: Source, stamp: Stamp, io: Io)
    requires InstallFont(w, env, u, src, stamp, io).0 == ERR_OK
    ensures InitDir !in io.failed
  {
  }

  lemma UserPathParts(u: int, name: string, names: seq<string>)
    requires IsFontName(name)
    ensures var x := ConstructItem(UserFontPath(name), names);
            Place(u, x) == InstallDir(u) + [name] && (HasBackslash(x) <==> '\\' in name)
  {
    hide UserFontPath, Resolve, RealPath;
    FontNameIsEntryName(name);
    UserFontPathResolves(u, name);
  }

  // ----- Scope fonts -----

  lemma ScopePathParts(u: int, info: ScopeInstall, names: seq<string>, name: string)
    requires IsFontName(name) && names != [] && info.srcPath != ""
    requires info.scope == FONT_SCOPE_APP || info.scope == FONT_SCOPE_SESSION
    requires IsAppIdentifier(info.scope, info.appIdentifier)
    ensures var x := ConstructScopeItem(ScopeRecord(info, names, name));
            && ItemOk(x) && x.names == Some(names) && x.srcPath == Some(info.srcPath)
            && x.path == Some(ScopeFontPath(info.appIdentifier, name))
            && x.appId == Some(info.appIdentifier) && x.scope == Some(info.scope)
            && Place(u, x) == InstallDir(u) + [info.appIdentifier, name]
            && (HasBackslash(x) <==> '\\' in name)
  {
    hide ScopeFontPath, Resolve, RealPath;
    FontNameIsEntryName(name);
    AppIdentifierIsEntryName(info.scope, info.appIdentifier);
    ScopeFontPathResolves(u, info.appIdentifier, name);
  }

  /** A scope install on a 7.0 config gets as far as a complete copy at its place. */
  ghost predicate ScopeCopyArrives(w: World, env: Env, u: int, info: ScopeInstall, src: Source, io: Io)
  {
    var names := FullNamesByFd(env, src.content);
    && InitDir !in io.failed
    && (forall it :: it in Items(w, u) ==> it.srcPath != Some(info.srcPath))
    && |Items(w, u)| < GetMaxInstallNum(env)
    && names != []
    && (forall it :: it in Items(w, u) ==> !Named(it, names))
    && InitScopeDir !in io.failed && CopyGoesThrough(src.content, io)
  }

  /** The exact condition for a scope install on a 7.0 config. */
  ghost predicate ScopeInstallGoesThrough(w: World, env: Env, u: int, info: ScopeInstall, src: Source, io: Io)
  {
    ScopeCopyArrives(w, env, u, info, src, io) && Write(1) !in io.failed
  }

  /** The record cannot be written, and the copy cannot be taken back. */
  ghost predicate ScopeCopyIsStranded(w: World, env: Env, u: int, info: ScopeInstall, src: Source, io: Io)
  {
    ScopeCopyArrives(w, env, u, info, src, io) && Write(1) in io.failed && Remove(1) in io.failed
  }

  lemma ValidateScopeExact(w: World, env: Env, u: int, srcPath: string, content: Bytes)
    ensures var items, names := Items(w, u), FullNamesByFd(env, content);
            ValidateScope(w, env, u, srcPath, content) == ERR_OK <==>
            && (forall it :: it in items ==> it.srcPath != Some(srcPath))
            && |items| < GetMaxInstallNum(env)
            && names != []
            && (forall it :: it in items ==> !Named(it, names))
  {
    var items, names := Items(w, u), FullNamesByFd(env, content);
    var i := First(items, ByUrl(srcPath));
    assert i < |items| ==> items[i] in items;
    if exists n :: n in names && First(items, ByName(n)) < |items| {
      var n :| n in names && First(items, ByName(n)) < |items|;
      assert items[First(items, ByName(n))] in items;
      assert Named(items[First(items, ByName(n))], names);
    } else {
      forall it, n | it in items && n in names ensures !Matches(it, ByName(n)) {
        FirstNamed(items, n);
      }
    }
  }

  /**
    A scope install adds one record and one complete copy in the caller's own directory, or no record
    and nothing outside temp/ but a stranded copy.
   */
  lemma InstallScopeExact(w: World, env: Env, u: int, info: ScopeInstall, src: Source, stamp: Stamp, io: Io)
    requires ConfigInv(ConfigOf(EnsureConfig(w, u), u), GetMaxInstallNum(env))
    requires info.srcPath != ""
    requires info.scope == FONT_SCOPE_APP || info.scope == FONT_SCOPE_SESSION
    requires IsAppIdentifier(info.scope, info.appIdentifier)
    requires Fresh(w, u, ScopeFontPath(info.appIdentifier, DestName(stamp, src)),
                   InstallDir(u) + [info.appIdentifier, DestName(stamp, src)])
    ensures var (ret, w2) := InstallScopeFont(w, env, u, info, src, stamp, io);
            var names, name := FullNamesByFd(env, src.content), DestName(stamp, src);
            var dir := InstallDir(u) + [info.appIdentifier];
            && (ret == ERR_OK <==> ScopeInstallGoesThrough(w, env, u, info, src, io))
            && (ret == ERR_OK ==> |src.content| <= MAX_FONT_FILE_SIZE && names == env.tool(src.content))
            && (ret == ERR_OK ==>
                  && Items(w2, u) == Items(w, u) + [ConstructScopeItem(ScopeRecord(info, names, name))]
                  && w2.files == (w.files - {dir + [TEMP_DIR, name]})[dir + [name] := src.content])
            && (ret != ERR_OK ==>
                  && Items(w2, u) == Items(w, u)
                  && NothingButOrphan(w.files, w2.files, dir + [TEMP_DIR, name], dir + [name], src.content,
                                      ScopeCopyIsStranded(w, env, u, info, src, io)))
            && (InitDir in io.failed || ConfigInv(ConfigOf(w2, u), GetMaxInstallNum(env)))
  {
    hide RecordsInv, ScopeFontPath, AgreeBut, InstallDir, Matches, Place, DestName, CopyForInstall, RemoveTree,
        IsAppIdentifier, ItemOk, Named, ValidateScope, IsFontName, CopyGoesThrough, ConstructScopeItem, ScopeRecord,
        HasBackslash;
    var names, name := FullNamesByFd(env, src.content), DestName(stamp, src);
    var w1 := EnsureConfig(w, u);
    assert Items(w1, u) == Items(w, u) && w1.files == w.files;
    var dir := InstallDir(u) + [info.appIdentifier];
    assert dir + [name] == InstallDir(u) + [info.appIdentifier, name];
    AgreeItself(w.files, dir + [TEMP_DIR, name]);
    ValidateScopeExact(w1, env, u, info.srcPath, src.content);
    if InitDir !in io.failed && ValidateScope(w1, env, u, info.srcPath, src.content) == ERR_OK {
      FontNameOfStamp(stamp, src);
      ScopePathParts(u, info, names, name);
      CopyExact(w.files, dir, name, src.content, io);
      ItemFits(Items(w, u), ConstructScopeItem(ScopeRecord(info, names, name)));
      assert |dir + [TEMP_DIR, name]| == |dir + [name]| + 1;
      if CopyGoesThrough(src.content, io) {
        RollbackExact(w.files, dir + [TEMP_DIR, name], dir + [name], src.content);
      }
    }
  }

  lemma FontNameOfStamp(stamp: Stamp, src: Source)
    ensures IsFontName(DestName(stamp, src))
  {
  }

  predicate CallerOwns(w: World, u: int, srcPath: string, bundleName: string, tokenId: int)
  {
    var items := Items(w, u);
    var i := First(items, ByUrl(srcPath));
    srcPath != "" && i < |items| && Owns(ParseScopeRecord(items[i]), bundleName, tokenId)
  }

  /** Only the owner removes a scope font, and nothing but that font's record and file goes. */
  lemma UninstallScopeExact(w: World, u: int, srcPath: string, bundleName: string, tokenId: int, io: Io, max: int)
    requires ConfigInv(ConfigOf(w, u), max)
    ensures var items := Items(w, u);
            var i := First(items, ByUrl(srcPath));
            UninstallScopeFont(w, u, srcPath, bundleName, tokenId, io)
            == if !CallerOwns(w, u, srcPath, bundleName, tokenId) then (ERR_SCOPE_FONT_NOT_FOUND, w)
               else if !HasBackslash(items[i]) && Place(u, items[i]) in w.files && Remove(0) in io.failed
               then (ERR_UNINSTALL_REMOVE_FAIL, w)
               else
                 var w1 := if HasBackslash(items[i]) then w else w.(files := w.files - {Place(u, items[i])});
                 if Write(0) in io.failed then (ERR_SYSTEM_ERROR, w1)
                 else (ERR_OK, WithConfig(w1, u, WithItems(ConfigOf(w, u), RemoveAt(items, i))))
    ensures ConfigInv(ConfigOf(UninstallScopeFont(w, u, srcPath, bundleName, tokenId, io).1, u), max)
  {
    hide Resolve, RealPath, Place, Matches, HasBackslash, Owns, First, RecordsInv;
    var items := Items(w, u);
    var i := First(items, ByUrl(srcPath));
    if i < |items| {
      FoundRecord(u, items, i);
    }
  }

  // ----- Cleanup -----

  predicate IsCleanupKey(key: Key)
  {
    key.ByApp? || key.AnyScope? || key.AppScope?
  }

  /** The places of the records whose file a cleanup removes: it resolves, and removal k + j does not fail. */
  ghost function RemovedPlaces(items: seq<Item>, u: int, k: nat, io: Io): set<Path>
  {
    set j | 0 <= j < |items| && !HasBackslash(items[j]) && Remove(k + j) !in io.failed :: Place(u, items[j])
  }

  lemma RemovedPlacesCons(items: seq<Item>, u: int, k: nat, io: Io)
    requires items != []
    ensures RemovedPlaces(items, u, k, io)
            == (if HasBackslash(items[0]) || Remove(k) in io.failed then {} else {Place(u, items[0])})
               + RemovedPlaces(items[1..], u, k + 1, io)
  {
    hide Place, HasBackslash;
    var rest := items[1..];
    forall j | 0 <= j < |rest| && !HasBackslash(rest[j]) && Remove(k + 1 + j) !in io.failed
      ensures Place(u, rest[j]) in RemovedPlaces(items, u, k, io)
    {
      assert items[j + 1] == rest[j] && k + (j + 1) == k + 1 + j;
    }
    forall j | 0 < j < |items| && !HasBackslash(items[j]) && Remove(k + j) !in io.failed
      ensures Place(u, items[j]) in RemovedPlaces(rest, u, k + 1, io)
    {
      assert rest[j - 1] == items[j] && k + 1 + (j - 1) == k + j;
    }
    assert !HasBackslash(items[0]) && Remove(k) !in io.failed ==> Place(u, items[0]) in RemovedPlaces(items, u, k, io) by {
      assert k + 0 == k;
    }
  }

  /** Whatever removals fail, the file loop removes exactly these files. */
  lemma {:induction false} RemoveFilesExact(files: Files, u: int, items: seq<Item>, k: nat, io: Io)
    requires forall it :: it in items ==> ItemOk(it)
    ensures RemoveFiles(files, u, items, k, io) == files - RemovedPlaces(items, u, k, io)
    decreases |items|
  {
    hide Resolve, RealPath, Place, HasBackslash, ItemOk, RemovedPlaces, RemoveFiles;
    if items == [] {
      NoFilesRemoved(files, u, k, io);
    } else {
      var it, rest := items[0], items[1..];
      assert it in items && forall x :: x in rest ==> x in items;
      var gone := if HasBackslash(it) || Remove(k) in io.failed then {} else {Place(u, it)};
      RemovedPlacesCons(items, u, k, io);
      RemoveFilesCons(files, u, items, k, io);
      RemoveFilesExact(files - gone, u, rest, k + 1, io);
      MinusTwice(files, gone, RemovedPlaces(rest, u, k + 1, io));
    }
  }

  lemma NoFilesRemoved(files: Files, u: int, k: nat, io: Io)
    ensures RemoveFiles(files, u, [], k, io) == files && RemovedPlaces([], u, k, io) == {}
  {
  }

  lemma RemoveFilesCons(files: Files, u: int, items: seq<Item>, k: nat, io: Io)
    requires items != [] && ItemOk(items[0])
    ensures RemoveFiles(files, u, items, k, io)
            == RemoveFiles(files - (if HasBackslash(items[0]) || Remove(k) in io.failed then {} else {Place(u, items[0])}),
                           u, items[1..], k + 1, io)
  {
    hide Resolve, RealPath, Place, HasBackslash, ItemOk;
    PlaceOf(u, items[0]);
    ItemOkShape(items[0]);
    assert files - {} == files;
  }

  lemma MinusTwice(files: Files, a: set<Path>, b: set<Path>)
    ensures files - a - b == files - (a + b)
  {
  }

  lemma InvOwnsUrls(items: seq<Item>, key: Key)
    requires RecordsInv(items) && IsCleanupKey(key)
    ensures OwnUrls(items, key)
  {
    hide ItemOk;
    forall i | 0 <= i < |items| && Matches(items[i], key) ensures items[i].srcPath.Some? {
      ItemOkShape(items[i]);
    }
    assert forall i, j :: 0 <= i < |items| && 0 <= j < |items| && i != j ==> Apart(items[i], items[j]);
  }

  /**
    Whatever fails, a cleanup leaves the records it did not select and those whose own config write
    failed, in order, and removes exactly the files it resolves and can remove.
   */
  lemma CleanupWorldExact(w: World, u: int, key: Key, io: Io, max: int)
    requires ConfigInv(ConfigOf(w, u), max) && IsCleanupKey(key)
    ensures var w2 := Cleanup(w, u, key, io);
            && ConfigInv(ConfigOf(w2, u), max)
            && w2.configs == w.configs[u := WithItems(ConfigOf(w, u), Items(w2, u))]
            && Items(w2, u) == Surviving(Items(w, u), key, 0, FailedWrites(io))
            && w2.files == w.files - RemovedPlaces(Select(Items(w, u), key), u, 0, io)
  {
    hide Place, ItemOk, RemoveEach, RemoveFiles, Matches, RemovedPlaces, OwnUrls;
    var items := Items(w, u);
    InvRemoveEach(items, Urls(Select(items, key)), 0, FailedWrites(io));
    InvOwnsUrls(items, key);
    CleanupLeavesSurvivors(items, key, 0, FailedWrites(io));
    SelectMembers(items, key);
    ItemsOk(items);
    RemoveFilesExact(w.files, u, Select(items, key), 0, io);
  }

  /** Every config write of this cleanup succeeds. */
  predicate CleanupWritesHold(w: World, u: int, key: Key, io: Io)
  {
    forall k: nat :: Write(k) in io.failed ==> k >= Count(Items(w, u), key)
  }

  lemma HoldsAsWrites(w: World, u: int, key: Key, io: Io)
    ensures CleanupWritesHold(w, u, key, io) <==> WritesHold(0, Count(Items(w, u), key), FailedWrites(io))
    ensures NoWriteFault(io) ==> CleanupWritesHold(w, u, key, io)
  {
    hide Count, Items;
    assert forall k :: k in FailedWrites(io) ==> Write(k) in io.failed;
    assert forall k: nat :: Write(k) in io.failed ==> k in FailedWrites(io);
  }

  /** A cleanup leaves no selected record exactly when all its config writes succeed, and then it is the plain filter. */
  lemma CleanupCompletesExactly(w: World, u: int, key: Key, io: Io, max: int)
    requires ConfigInv(ConfigOf(w, u), max) && IsCleanupKey(key)
    ensures var left := Items(Cleanup(w, u, key, io), u);
            && (CleanupWritesHold(w, u, key, io) <==> left == Without(Items(w, u), key))
            && (CleanupWritesHold(w, u, key, io) <==> forall it :: it in left ==> !Matches(it, key))
  {
    hide Matches, Cleanup, ConfigInv, Surviving, Survives;
    CleanupWorldExact(w, u, key, io, max);
    HoldsAsWrites(w, u, key, io);
    var items, failed := Items(w, u), FailedWrites(io);
    SurvivingIsFilter(items, key, 0, failed);
    SelectMembers(items, key);
    hide Without, Select;
    if !CleanupWritesHold(w, u, key, io) {
      SomeSurvivor(items, key, failed);
    }
  }

  lemma SomeSurvivor(items: seq<Item>, key: Key, failed: set<nat>)
    requires !WritesHold(0, Count(items, key), failed)
    ensures exists it :: it in Surviving(items, key, 0, failed) && Matches(it, key)
  {
    hide Matches, Survives, Surviving;
    var k :| k in failed && 0 <= k < Count(items, key);
    var it := Select(items, key)[k];
    SelectMembers(items, key);
    assert it in Select(items, key);
    SurvivesAt(items, key, 0, failed, k);
    SurvivingMembers(items, key, 0, failed, it);
  }

  /** Whatever removals fail, the file loop removes nothing but files of the given records. */
  lemma RemoveFilesWithin(files: Files, u: int, items: seq<Item>, k: nat, io: Io)
    requires forall it :: it in items ==> ItemOk(it)
    ensures var left := RemoveFiles(files, u, items, k, io);
            && left.Keys <= files.Keys
            && (forall p :: p in files && (forall it :: it in items ==> p != Place(u, it)) ==>
                  p in left && left[p] == files[p])
  {
    hide RemoveFiles, Place, ItemOk, HasBackslash;
    RemoveFilesExact(files, u, items, k, io);
  }

  lemma AppPlace(u: int, it: Item, app: string)
    requires it.appId == Some(app)
    ensures InstallDir(u) + [app] <= Place(u, it)
  {
    hide InstallDir, GetFileName;
    var name := GetFileName(OrElse(it.path, ""));
    assert Place(u, it) == InstallDir(u) + [app, name];
    assert InstallDir(u) + [app, name] == InstallDir(u) + [app] + [name];
  }

  /**
    The cleanup of an app leaves the records it did not select and those whose write failed, and
    removes exactly its directory, however many of the single file removals failed before.
   */
  lemma AppCleanupExact(w: World, u: int, app: string, io: Io, max: int)
    requires ConfigInv(ConfigOf(w, u), max)
    ensures var w2, chosen := CleanupAppScopeFonts(w, u, app, io), Select(Items(w, u), ByApp(app));
            && Items(w2, u) == Surviving(Items(w, u), ByApp(app), 0, FailedWrites(io))
            && w2.files == if Remove(|chosen|) in io.failed then w.files - RemovedPlaces(chosen, u, 0, io)
                           else RemoveTree(w.files, InstallDir(u) + [app])
  {
    hide RecordsInv, ItemOk, Place, RemoveEach, RemoveFiles, InstallDir, RemovedPlaces;
    CleanupWorldExact(w, u, ByApp(app), io, max);
    var items := Items(w, u);
    var chosen := Select(items, ByApp(app));
    SelectMembers(items, ByApp(app));
    ItemsOk(items);
    forall it | it in chosen ensures ItemOk(it) && InstallDir(u) + [app] <= Place(u, it) {
      AppPlace(u, it, app);
    }
    RemoveFilesWithin(w.files, u, chosen, 0, io);
  }

  /** Per-record cleanup of an app leaves what the bulk deletion leaves exactly when its config writes succeed. */
  lemma CleanupMatchesBulkDelete(w: World, u: int, appIdentifier: string, io: Io, max: int)
    requires ConfigInv(ConfigOf(w, u), max)
    ensures var key := ByApp(appIdentifier);
            && Items(DeleteByApp(w, u, appIdentifier, true).1, u) == Without(Items(w, u), key)
            && (Items(CleanupAppScopeFonts(w, u, appIdentifier, io), u) == Items(DeleteByApp(w, u, appIdentifier, true).1, u)
                <==> CleanupWritesHold(w, u, key, io))
  {
    hide Place, RemoveTree, Matches, RecordsInv, Cleanup, CleanupWritesHold;
    CleanupCompletesExactly(w, u, ByApp(appIdentifier), io, max);
    var items, key := Items(w, u), ByApp(appIdentifier);
    if First(items, key) == |items| {
      WithoutNone(items, key);
    }
  }

  /** The bulk deletion succeeds exactly when it finds a record of the app and can write; else nothing changes. */
  lemma DeleteByAppExact(w: World, u: int, appIdentifier: string, writeOk: bool)
    ensures var (ok, w2) := DeleteByApp(w, u, appIdentifier, writeOk);
            && (ok <==> writeOk && exists it :: it in Items(w, u) && it.appId == Some(appIdentifier))
            && (if ok then Items(w2, u) == Without(Items(w, u), ByApp(appIdentifier)) else w2 == w)
            && w2.files == w.files && (forall v :: v != u ==> Items(w2, v) == Items(w, v))
  {
    hide Without;
    var items, key := Items(w, u), ByApp(appIdentifier);
    var i := First(items, key);
    assert i < |items| ==> items[i] in items;
    assert forall it :: Matches(it, key) <==> it.appId == Some(appIdentifier);
  }

  lemma {:induction false} WithoutNone(items: seq<Item>, key: Key)
    requires forall j :: 0 <= j < |items| ==> !Matches(items[j], key)
    ensures Without(items, key) == items
  {
    if items != [] {
      assert forall j :: 0 <= j < |items[1..]| ==> items[1..][j] == items[j + 1];
      WithoutNone(items[1..], key);
    }
  }
}
