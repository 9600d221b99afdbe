/**
  FontManagerServer: the scope-install request and the cleanup tasks of a start, step by step on
  the registry and the disk.
 */
module FontManagerServers {
  import opened Wrappers
  import opened Paths
  import opened FileCopy
  import opened RecordStore
  import opened FontStore
  import opened FontConfigs
  import opened FontManagers
  import opened StoreRuns
  import opened ClientRegistry
  import opened ServiceRuns
  import opened StartCleanup

  /** What listing a user's install directory yields: its directories, which are not files. */
  predicate Lists(files: Files, u: int, entries: seq<string>)
  {
    && (forall p :: p in files && |p| >= 8 && InstallDir(u) <= p ==> p[6] in entries)
    && (forall e :: e in entries ==> InstallDir(u) + [e] !in files)
  }

  lemma FewerFiles(f: Files, g: Files, u: int, entries: seq<string>)
    requires Lists(f, u, entries) && g.Keys <= f.Keys
    ensures Lists(g, u, entries)
  {
    hide InstallDir;
  }

  predicate Below(p: Path, u: int)
  {
    |p| >= 8 && InstallDir(u) <= p
  }

  lemma BelowDir(p: Path, u: int, d: string)
    ensures InstallDir(u) + [d] <= p <==> p == InstallDir(u) + [d] || (Below(p, u) && p[6] == d)
    ensures Below(p, u) ==> p[..7] == InstallDir(u) + [p[6]]
  {
    if |p| >= 7 {
      assert p[..7] == p[..6] + [p[6]];
    }
  }

  /** The user's files without those in the first directories listed. */
  function Dropped(files: Files, u: int, dirs: seq<string>, stuck: set<Path>): Files
  {
    map p | p in files && !(Below(p, u) && p[6] in dirs && p[..7] !in stuck) :: files[p]
  }

  lemma DropOneMore(files: Files, u: int, dirs: seq<string>, d: string, stuck: set<Path>)
    requires InstallDir(u) + [d] !in files
    ensures var before, dir := Dropped(files, u, dirs, stuck), InstallDir(u) + [d];
      Dropped(files, u, dirs + [d], stuck) == if dir in stuck then before else RemoveTree(before, dir)
  {
    hide InstallDir, Below;
    forall p: Path {
      BelowDir(p, u, d);
    }
    assert forall e :: e in dirs + [d] <==> e in dirs || e == d;
  }

  lemma DroppedIsSwept(files: Files, u: int, entries: seq<string>, dirs: seq<string>,
                       names: string -> bool, stuck: set<Path>)
    requires Lists(files, u, entries) && forall e :: e in dirs <==> e in entries && names(e)
    ensures Dropped(files, u, dirs, stuck) == Sweep(files, [u], names, stuck)
  {
    hide InstallDir;
    assert u in [u];
  }

  lemma SweepOneMore(files: Files, users: seq<int>, u: int, names: string -> bool, stuck: set<Path>)
    ensures Sweep(Sweep(files, users, names, stuck), [u], names, stuck) == Sweep(files, users + [u], names, stuck)
  {
    hide InstallDir;
    forall p: Path
      ensures InSomeInstallDir(p, users + [u]) <==> InSomeInstallDir(p, users) || InSomeInstallDir(p, [u])
    {
      assert forall v :: v in users + [u] <==> v in users || v in [u];
    }
  }

  lemma TempSwept(files: Files, u: int, stuck: set<Path>)
    ensures Dropped(files, u, [TEMP_DIR], stuck) == Sweep(files, [u], IsTempDir, stuck)
  {
    hide InstallDir;
    assert u in [u];
  }

  lemma {:induction false} RemoveFilesShrinks(files: Files, u: int, items: seq<Item>, k: nat, io: Io)
    ensures RemoveFiles(files, u, items, k, io).Keys <= files.Keys
    decreases |items|
  {
    hide Resolve;
    if items != [] {
      var place := Resolve(u, OrElse(items[0].path, ""));
      RemoveFilesShrinks(if place.Some? && Remove(k) !in io.failed then WithoutFile(files, place.value) else files,
                         u, items[1..], k + 1, io);
    }
  }

  lemma {:induction false} StartShrinks(w: World, env: Env, boot: bool, users: seq<int>, faults: int -> Io)
    ensures Run(w, env, StartCalls(boot, users, faults)).files.Keys <= w.files.Keys
    decreases |users|
  {
    hide RemoveFiles, Select, ConfigOf, RemoveEach;
    if users != [] {
      var calls := StartCalls(boot, users, faults);
      assert calls[1..] == StartCalls(boot, users[1..], faults);
      RemoveFilesShrinks(w.files, users[0], Select(Items(w, users[0]), StartKey(boot)), 0, faults(users[0]));
      StartShrinks(Apply(w, env, calls[0]).1, env, boot, users[1..], faults);
    }
  }

  /** Every listed user's directories are listed, and none of their temp directories is a file. */
  predicate ListsAll(files: Files, users: seq<int>, listing: int -> seq<string>)
  {
    forall u :: u in users ==> Lists(files, u, listing(u)) && InstallDir(u) + [TEMP_DIR] !in files
  }

  lemma FewerFilesForAll(f: Files, g: Files, users: seq<int>, listing: int -> seq<string>)
    requires ListsAll(f, users, listing) && g.Keys <= f.Keys
    ensures ListsAll(g, users, listing)
  {
    hide Lists, InstallDir;
    forall u | u in users ensures Lists(g, u, listing(u)) {
      FewerFiles(f, g, u, listing(u));
    }
  }

  class FontManagerServer {
    const registry: FontClientRegistry
    const manager: FontManager

    constructor (registry: FontClientRegistry)
      ensures this.registry == registry && manager == registry.manager
    {
      this.registry, manager := registry, registry.manager;
    }

    function State(): Service
      reads registry, manager.disk
    {
      Service(manager.disk.State(), registry.State())
    }

    /** The caller's user comes from the platform; the outcome and the new state are those of the request. */
    method InstallScopeFontInner(p: Platform, tokenId: int, scope: int, srcPath: string, bundleName: string,
                                 src: Source, stamp: Stamp, io: Io)
      returns (outValue: int)
      requires manager.Valid() && p.env == manager.env && registry.manager == manager
      modifies manager`configMap, manager.disk
      ensures manager.Valid()
      ensures State() == Serve(old(State()), p,
                               InstallScopeFontRequest(tokenId, scope, srcPath, bundleName, src, stamp, io))
      ensures var gate := GateScopeInstall(old(registry.State()), p, tokenId, scope, bundleName);
        outValue == if gate != ERR_OK then gate
                    else FontStore.InstallScopeFont(old(manager.disk.State()), manager.env, p.userOf(tokenId),
                                                    InfoOf(scope, srcPath, bundleName, tokenId), src, stamp, io).0
    {
      hide FontStore.InstallScopeFont, MakeAppIdentifier;
      if scope != FONT_SCOPE_APP && scope != FONT_SCOPE_SESSION {
        return ERR_INVALID_PARAM;
      }
      var userId := p.userOf(tokenId);
      if userId < 0 {
        return ERR_SYSTEM_ERROR;
      }
      if scope == FONT_SCOPE_APP {
        var registered := registry.IsClientRegistered(tokenId);
        if !registered {
          return ERR_SCOPE_FONT_NOT_REGISTERED;
        }
      }
      if bundleName == "" {
        return ERR_SYSTEM_ERROR;
      }
      var info := ScopeInstall(scope, srcPath, bundleName, MakeAppIdentifier(scope, tokenId));
      outValue := manager.InstallScopeFont(info, src, userId, stamp, io);
    }

    /** Remove the directories of one user whose name passes the test, after listing them. */
    method CleanupScopeFontDirsOf(userId: int, entries: seq<string>, boot: bool, stuck: set<Path>)
      requires Lists(manager.disk.files, userId, entries)
      modifies manager.disk`files
      ensures manager.disk.files == Sweep(old(manager.disk.files), [userId],
                                             if boot then IsScopeDir else IsAppDir, stuck)
    {
      hide InstallDir, Sweep, RemoveTree;
      ghost var names := if boot then IsScopeDir else IsAppDir;
      ghost var files := manager.disk.files;
      var dirsToRemove: seq<string> := [];
      for i := 0 to |entries|
        invariant forall e :: e in dirsToRemove <==> e in entries[..i] && names(e)
      {
        if APP_FONT_DIR_PREFIX <= entries[i] || (boot && SESSION_FONT_DIR_PREFIX <= entries[i]) {
          dirsToRemove := dirsToRemove + [entries[i]];
        }
      }
      assert entries[..|entries|] == entries;
      assert Dropped(files, userId, [], stuck) == files;
      for k := 0 to |dirsToRemove|
        invariant manager.disk.files == Dropped(files, userId, dirsToRemove[..k], stuck)
      {
        var d := dirsToRemove[k];
        assert d in dirsToRemove && dirsToRemove[..k + 1] == dirsToRemove[..k] + [d];
        DropOneMore(files, userId, dirsToRemove[..k], d, stuck);
        manager.disk.DeleteDir(InstallDir(userId) + [d], InstallDir(userId) + [d] in stuck);
      }
      assert dirsToRemove[..|dirsToRemove|] == dirsToRemove;
      DroppedIsSwept(files, userId, entries, dirsToRemove, names, stuck);
    }

    method CleanupScopeFontDirs(users: seq<int>, listing: int -> seq<string>, boot: bool, stuck: set<Path>)
      requires ListsAll(manager.disk.files, users, listing)
      modifies manager.disk`files
      ensures manager.disk.files == Sweep(old(manager.disk.files), users, if boot then IsScopeDir else IsAppDir, stuck)
    {
      ghost var names, files := if boot then IsScopeDir else IsAppDir, manager.disk.files;
      assert Sweep(files, [], names, stuck) == files;
      assert forall done: seq<int> :: Sweep(files, done, names, stuck).Keys <= files.Keys;
      hide Sweep, InstallDir, Lists, IsScopeDir, IsAppDir;
      for k := 0 to |users|
        invariant manager.disk.files == Sweep(files, users[..k], names, stuck)
      {
        var userId := users[k];
        FewerFiles(files, manager.disk.files, userId, listing(userId));
        CleanupScopeFontDirsOf(userId, listing(userId), boot, stuck);
        SweepOneMore(files, users[..k], userId, names, stuck);
        assert users[..k + 1] == users[..k] + [userId];
      }
      assert users[..|users|] == users;
    }

    method ClearAllTempFileDir(users: seq<int>, stuck: set<Path>)
      requires forall u :: u in users ==> InstallDir(u) + [TEMP_DIR] !in manager.disk.files
      modifies manager.disk`files
      ensures manager.disk.files == Sweep(old(manager.disk.files), users, IsTempDir, stuck)
    {
      ghost var files := manager.disk.files;
      assert Sweep(files, [], IsTempDir, stuck) == files;
      assert forall done: seq<int> :: Sweep(files, done, IsTempDir, stuck).Keys <= files.Keys;
      assert forall f: Files, u: int :: Dropped(f, u, [], stuck) == f;
      hide Sweep, InstallDir, Dropped, RemoveTree;
      for k := 0 to |users|
        invariant manager.disk.files == Sweep(files, users[..k], IsTempDir, stuck)
      {
        var userId := users[k];
        ghost var here := manager.disk.files;
        assert userId in users;
        manager.disk.DeleteDir(InstallDir(userId) + [TEMP_DIR], InstallDir(userId) + [TEMP_DIR] in stuck);
        DropOneMore(here, userId, [], TEMP_DIR, stuck);
        assert [] + [TEMP_DIR] == [TEMP_DIR];
        TempSwept(here, userId, stuck);
        SweepOneMore(files, users[..k], userId, IsTempDir, stuck);
        assert users[..k + 1] == users[..k] + [userId];
      }
      assert users[..|users|] == users;
    }

    /** The record loop the two cleanup tasks share. */
    method CleanupEachUser(users: seq<int>, boot: bool, faults: int -> Io)
      requires manager.Valid()
      modifies manager`configMap, manager.disk
      ensures manager.Valid()
      ensures manager.disk.State() == Run(old(manager.disk.State()), manager.env, StartCalls(boot, users, faults))
    {
      hide Cleanup;
      ghost var goal := Run(manager.disk.State(), manager.env, StartCalls(boot, users, faults));
      assert users[0..] == users;
      for k := 0 to |users|
        invariant manager.Valid()
        invariant Run(manager.disk.State(), manager.env, StartCalls(boot, users[k..], faults)) == goal
      {
        ghost var rest := StartCalls(boot, users[k..], faults);
        assert users[k..][1..] == users[k + 1..] && rest[1..] == StartCalls(boot, users[k + 1..], faults);
        if boot {
          var _ := manager.CleanupScopeFontsByUser(users[k], faults(users[k]));
        } else {
          var _ := manager.CleanupAppScopeFontsByUser(users[k], faults(users[k]));
        }
      }
      assert users[|users|..] == [];
    }

    method CleanupAllScopeFontsOnBoot(users: seq<int>, listing: int -> seq<string>, faults: int -> Io, stuck: set<Path>)
      requires manager.Valid() && ListsAll(manager.disk.files, users, listing)
      modifies manager`configMap, manager.disk
      ensures manager.Valid()
      ensures manager.disk.State() == AfterStart(old(manager.disk.State()), manager.env, true, users, faults, stuck)
    {
      ghost var w := manager.disk.State();
      hide Run, Lists, InstallDir;
      CleanupEachUser(users, true, faults);
      StartShrinks(w, manager.env, true, users, faults);
      FewerFilesForAll(w.files, manager.disk.files, users, listing);
      ClearAllTempFileDir(users, stuck);
      FewerFilesForAll(w.files, manager.disk.files, users, listing);
      CleanupScopeFontDirs(users, listing, true, stuck);
    }

    method CleanupAppScopeFontsOnStart(users: seq<int>, listing: int -> seq<string>, faults: int -> Io, stuck: set<Path>)
      requires manager.Valid() && ListsAll(manager.disk.files, users, listing)
      modifies manager`configMap, manager.disk
      ensures manager.Valid()
      ensures manager.disk.State() == AfterStart(old(manager.disk.State()), manager.env, false, users, faults, stuck)
    {
      ghost var w := manager.disk.State();
      hide Run, Lists, InstallDir;
      CleanupEachUser(users, false, faults);
      StartShrinks(w, manager.env, false, users, faults);
      FewerFilesForAll(w.files, manager.disk.files, users, listing);
      CleanupScopeFontDirs(users, listing, false, stuck);
    }

    method CleanupUserScopeFonts(userId: int, io: Io)
      requires manager.Valid()
      modifies manager`configMap, manager.disk
      ensures manager.Valid()
      ensures manager.disk.State() == if userId < 0 then old(manager.disk.State())
                                      else Cleanup(old(manager.disk.State()), userId, AnyScope, io)
    {
      if userId >= 0 {
        var _ := manager.CleanupScopeFontsByUser(userId, io);
      }
    }
  }
}
