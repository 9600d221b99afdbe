/**
  The cleanup task of a service start: the records and files of scope fonts go user by user, then
  the directories they lived in.
 */
module StartCleanup {
  import opened Wrappers
  import opened Paths
  import opened FileCopy
  import opened RecordStore
  import opened FontStore
  import opened StoreInvariants
  import opened InstallTheorems
  import opened UninstallTheorems
  import opened StoreRuns
  import opened VersionRuns
  import opened ClientRegistry
  import opened ServiceRuns

  predicate IsTempDir(name: string)
  {
    name == TEMP_DIR
  }

  predicate IsAppDir(name: string)
  {
    APP_FONT_DIR_PREFIX <= name
  }

  predicate IsScopeDir(name: string)
  {
    APP_FONT_DIR_PREFIX <= name || SESSION_FONT_DIR_PREFIX <= name
  }

  predicate InSomeInstallDir(p: Path, users: seq<int>)
  {
    exists u :: u in users && InstallDir(u) <= p
  }

  /** p lies in a directory with such a name just below a listed user's install directory. */
  predicate InDir(p: Path, users: seq<int>, names: string -> bool)
  {
    |p| >= 8 && names(p[6]) && InSomeInstallDir(p, users)
  }

  /** Delete every such directory that is not stuck. */
  function Sweep(files: Files, users: seq<int>, names: string -> bool, stuck: set<Path>): Files
  {
    map p | p in files && !(InDir(p, users, names) && p[..7] !in stuck) :: files[p]
  }

  function SweepAll(files: Files, boot: bool, users: seq<int>, stuck: set<Path>): Files
  {
    if boot then Sweep(Sweep(files, users, IsTempDir, stuck), users, IsScopeDir, stuck)
    else Sweep(files, users, IsAppDir, stuck)
  }

  /** The store after the cleanup task of a start. */
  function AfterStart(w: World, env: Env, boot: bool, users: seq<int>, faults: int -> Io, stuck: set<Path>): World
  {
    var cleaned := Run(w, env, StartCalls(boot, users, faults));
    cleaned.(files := SweepAll(cleaned.files, boot, users, stuck))
  }

  // ----- One user's records and files -----

  function StartKey(boot: bool): Key
  {
    if boot then AnyScope else AppScope
  }

  predicate ScopeName(boot: bool, name: string)
  {
    if boot then IsScopeDir(name) else IsAppDir(name)
  }

  /** A file the record cleanup of u may touch. */
  predicate Touchable(boot: bool, u: int, p: Path)
  {
    |p| >= 8 && InstallDir(u) <= p && ScopeName(boot, p[6])
  }

  lemma ScopePlaceIsTouchable(boot: bool, u: int, it: Item)
    requires ItemOk(it) && Matches(it, StartKey(boot))
    ensures Touchable(boot, u, Place(u, it))
  {
    hide IsFontName, GetFileName, UserFontPath, ScopeFontPath, ToString;
    var t :| it.appId.value == MakeAppIdentifier(it.scope.value, t);
    assert |Place(u, it)| == 8 && Place(u, it)[6] == it.appId.value;
  }

  predicate KeepsOthers(boot: bool, u: int, f: Files, g: Files)
  {
    forall p :: p in f && !Touchable(boot, u, p) ==> p in g && g[p] == f[p]
  }

  lemma CleanupKeeps(boot: bool, w: World, u: int, io: Io, max: int)
    requires WorldInv(w, max)
    ensures KeepsOthers(boot, u, w.files, Cleanup(w, u, StartKey(boot), io).files)
  {
    hide RemoveFiles, RemoveEach, Matches, ItemOk, Touchable, Place, RecordsInv;
    if HasArray(ConfigOf(w, u)) {
      var items := Items(w, u);
      var chosen := Select(items, StartKey(boot));
      SelectMembers(items, StartKey(boot));
      ItemsOk(items);
      forall it | it in chosen ensures ItemOk(it) && Touchable(boot, u, Place(u, it)) {
        ScopePlaceIsTouchable(boot, u, it);
      }
      RemoveFilesWithin(w.files, u, chosen, 0, io);
    }
  }

  /** What the cleanup of one user leaves. */
  function Left(w: World, boot: bool, u: int, io: Io): seq<Item>
  {
    Surviving(Items(w, u), StartKey(boot), 0, FailedWrites(io))
  }

  lemma OneCleanup(w: World, env: Env, boot: bool, u: int, io: Io)
    requires WorldInv(w, GetMaxInstallNum(env))
    ensures var w2 := Apply(w, env, StartCall(boot, u, io)).1;
      && WorldInv(w2, GetMaxInstallNum(env))
      && Items(w2, u) == Left(w, boot, u, io)
      && (forall v :: v != u ==> Items(w2, v) == Items(w, v))
      && KeepsOthers(boot, u, w.files, w2.files)
  {
    var call, max := StartCall(boot, u, io), GetMaxInstallNum(env);
    assert Apply(w, env, call).1 == Cleanup(w, u, StartKey(boot), io);
    hide Apply, Cleanup, KeepsOthers, OnlyUser, ConfigInv;
    CleanupKeeps(boot, w, u, io, max);
    OneUserPerCall(w, env, call);
    ApplyKeepsConfigInv(w, env, call);
    var w2 := Apply(w, env, call).1;
    InvOfOneUser(w, w2, u, max);
    if u in w.configs {
      CleanupWorldExact(w, u, StartKey(boot), io, max);
    } else {
      NoConfigNoChange(w, env, call);
    }
    forall v | v != u ensures Items(w2, v) == Items(w, v) {
      OtherConfig(w, w2, u, v);
    }
  }

  /** The record part of a start leaves each listed user's survivors and keeps all other files. */
  lemma {:induction false} StartFilters(w: World, env: Env, boot: bool, users: seq<int>, faults: int -> Io, u: int)
    requires WorldInv(w, GetMaxInstallNum(env)) && NoRepeats(users)
    ensures var w2 := Run(w, env, StartCalls(boot, users, faults));
      && WorldInv(w2, GetMaxInstallNum(env))
      && Items(w2, u) == (if u in users then Left(w, boot, u, faults(u)) else Items(w, u))
      && (forall p :: p in w.files && !(exists v :: v in users && Touchable(boot, v, p)) ==>
            p in w2.files && w2.files[p] == w.files[p])
    decreases |users|
  {
    hide WorldInv, Apply, ConfigOf, Touchable, Surviving, StartKey, StartCall;
    var calls := StartCalls(boot, users, faults);
    if users != [] {
      var v := users[0];
      assert calls[1..] == StartCalls(boot, users[1..], faults) && users == [v] + users[1..];
      assert v !in users[1..];
      var w1 := Apply(w, env, calls[0]).1;
      OneCleanup(w, env, boot, v, faults(v));
      StartFilters(w1, env, boot, users[1..], faults, u);
      forall p | p in w.files && !(exists x :: x in users && Touchable(boot, x, p))
        ensures p in w1.files && w1.files[p] == w.files[p] && !(exists x :: x in users[1..] && Touchable(boot, x, p))
      {
        assert v in users && forall x :: x in users[1..] ==> x in users;
      }
    }
  }

  // ----- The theorems -----

  /** p lies in one of the directories a start sweeps. */
  predicate InSweptDir(p: Path, boot: bool, users: seq<int>)
  {
    InDir(p, users, if boot then IsScopeDir else IsAppDir) || (boot && InDir(p, users, IsTempDir))
  }

  /** The deletion of p's directory fails. */
  predicate IsStuck(p: Path, stuck: set<Path>)
  {
    |p| >= 7 && p[..7] in stuck
  }

  /**
    Whatever fails, a start leaves each listed user the records its cleanup did not select and those
    whose own write failed, in order, and no other user's records change. No file is left in a
    directory it sweeps unless that directory is stuck, and every file outside those directories
    stays as it was, whichever removals failed in the record loop.
   */
  lemma StartRecovers(w: World, env: Env, boot: bool, users: seq<int>, faults: int -> Io, stuck: set<Path>)
    requires WorldInv(w, GetMaxInstallNum(env)) && NoRepeats(users)
    ensures var w2 := AfterStart(w, env, boot, users, faults, stuck);
      && (forall u :: Items(w2, u) == if u in users then Left(w, boot, u, faults(u)) else Items(w, u))
      && (forall p :: p in w2.files && InSweptDir(p, boot, users) ==> IsStuck(p, stuck))
      && (forall p :: p in w.files && !InSweptDir(p, boot, users) ==> p in w2.files && w2.files[p] == w.files[p])
  {
    hide WorldInv, Run, StartCalls, Left, InstallDir;
    var mid := Run(w, env, StartCalls(boot, users, faults));
    var w2 := AfterStart(w, env, boot, users, faults, stuck);
    forall u
      ensures Items(w2, u) == Items(mid, u)
      ensures Items(mid, u) == if u in users then Left(w, boot, u, faults(u)) else Items(w, u)
    {
      StartFilters(w, env, boot, users, faults, u);
    }
    StartFilters(w, env, boot, users, faults, 0);
    forall p | p in w.files && !InSweptDir(p, boot, users)
      ensures p in mid.files && mid.files[p] == w.files[p]
    {
      assert forall v :: v in users && Touchable(boot, v, p) ==> InSomeInstallDir(p, users);
    }
  }

  /** The start's cleanup can write the config for each app-scope record of the user. */
  predicate StartWrites(w: World, boot: bool, u: int, io: Io)
  {
    forall k: nat :: Write(k) in io.failed && k < Count(Items(w, u), StartKey(boot)) ==>
      !Matches(Select(Items(w, u), StartKey(boot))[k], AppScope)
  }

  /** A start leaves a user no app-scope record exactly when those writes succeed, and a plain filter when all do. */
  lemma LeavesNoAppExactly(w: World, boot: bool, u: int, io: Io)
    ensures (forall it :: it in Left(w, boot, u, io) ==> !Matches(it, AppScope)) <==> StartWrites(w, boot, u, io)
    ensures CleanupWritesHold(w, u, StartKey(boot), io) ==> Left(w, boot, u, io) == Without(Items(w, u), StartKey(boot))
  {
    var items, key, failed := Items(w, u), StartKey(boot), FailedWrites(io);
    assert forall it :: Matches(it, AppScope) ==> Matches(it, key);
    assert forall k :: k in failed ==> Write(k) in io.failed;
    assert forall k: nat :: Write(k) in io.failed ==> k in failed;
    hide Matches, Surviving, Items, StartKey, FailedWrites, Without;
    SelectMembers(items, key);
    SurvivingIsFilter(items, key, 0, failed);
    HoldsAsWrites(w, u, key, io);
    hide Select, Survives, CleanupWritesHold;
    if StartWrites(w, boot, u, io) {
      forall it | it in Surviving(items, key, 0, failed) ensures !Matches(it, AppScope) {
        SurvivorFailed(items, key, failed, it);
      }
    } else {
      var k: nat :| Write(k) in io.failed && k < Count(items, key) && Matches(Select(items, key)[k], AppScope);
      SurvivesAt(items, key, 0, failed, k);
      SurvivingMembers(items, key, 0, failed, Select(items, key)[k]);
    }
  }

  lemma SurvivorFailed(items: seq<Item>, key: Key, failed: set<nat>, it: Item)
    requires it in Surviving(items, key, 0, failed)
    ensures (it in items && !Matches(it, key))
            || exists k: nat :: k in failed && k < Count(items, key) && Select(items, key)[k] == it
  {
    hide Matches, Surviving;
    SurvivingMembers(items, key, 0, failed, it);
  }

  /** A boot rids a user of every scope record exactly when that cleanup can write, and is then the plain filter. */
  lemma BootClearsScopes(w: World, env: Env, users: seq<int>, faults: int -> Io, stuck: set<Path>, u: int)
    requires WorldInv(w, GetMaxInstallNum(env)) && NoRepeats(users) && u in users
    ensures var before, after := Items(w, u), Items(AfterStart(w, env, true, users, faults, stuck), u);
      && ((forall it :: it in after ==> !Matches(it, AnyScope)) <==>
            forall k: nat :: Write(k) in faults(u).failed ==> k >= |Select(before, AnyScope)|)
      && ((forall k: nat :: Write(k) in faults(u).failed ==> k >= |Select(before, AnyScope)|) ==>
            after == Without(before, AnyScope))
      && Without(after, AnyScope) == Without(before, AnyScope)
  {
    hide AfterStart, WorldInv, Matches, Surviving, Without, Items, Select;
    StartRecovers(w, env, true, users, faults, stuck);
    assert Left(w, true, u, faults(u)) == Surviving(Items(w, u), AnyScope, 0, FailedWrites(faults(u)));
    LeftExactly(w, u, AnyScope, faults(u));
  }

  /** An ordinary start keeps every session-scope and user-level record, in order. */
  lemma StartKeepsOthers(w: World, env: Env, users: seq<int>, faults: int -> Io, stuck: set<Path>, u: int)
    requires WorldInv(w, GetMaxInstallNum(env)) && NoRepeats(users)
    ensures var before, after := Items(w, u), Items(AfterStart(w, env, false, users, faults, stuck), u);
      && Without(after, AppScope) == Without(before, AppScope)
      && (u in users && (forall k: nat :: Write(k) in faults(u).failed ==> k >= |Select(before, AppScope)|) ==>
            after == Without(before, AppScope))
  {
    hide AfterStart, WorldInv, Matches, Surviving, Without, Items, Select;
    StartRecovers(w, env, false, users, faults, stuck);
    assert Left(w, false, u, faults(u)) == Surviving(Items(w, u), AppScope, 0, FailedWrites(faults(u)));
    LeftExactly(w, u, AppScope, faults(u));
  }

  lemma LeftExactly(w: World, u: int, key: Key, io: Io)
    ensures var before, after := Items(w, u), Surviving(Items(w, u), key, 0, FailedWrites(io));
      && ((forall it :: it in after ==> !Matches(it, key)) <==>
            forall k: nat :: Write(k) in io.failed ==> k >= |Select(before, key)|)
      && ((forall k: nat :: Write(k) in io.failed ==> k >= |Select(before, key)|) ==> after == Without(before, key))
      && Without(after, key) == Without(before, key)
  {
    hide Matches, Surviving, Without, Items, Select, WritesHold;
    var before, failed := Items(w, u), FailedWrites(io);
    HoldsAsWrites(w, u, key, io);
    SurvivingIsFilter(before, key, 0, failed);
    SelectMembers(before, key);
    SurvivingKeepsOthers(before, key, 0, failed);
    if !CleanupWritesHold(w, u, key, io) {
      SomeSurvivor(before, key, failed);
    }
  }

  lemma {:induction false} SurvivingKeepsOthers(items: seq<Item>, key: Key, k: nat, failed: set<nat>)
    ensures Without(Surviving(items, key, k, failed), key) == Without(items, key)
    decreases |items|
  {
    hide Matches;
    if items != [] {
      var x, rest := items[0], items[1..];
      var left := Surviving(rest, key, if Matches(x, key) then k + 1 else k, failed);
      SurvivingKeepsOthers(rest, key, if Matches(x, key) then k + 1 else k, failed);
      assert ([x] + left)[1..] == left;
      assert Without([x] + left, key) == (if Matches(x, key) then [] else [x]) + Without(left, key);
      assert [] + left == left;
    }
  }

  /** After a start no file is left where fonts of the scopes it cleans, or half-done copies, are kept. */
  lemma NoScopeFileStays(w: World, env: Env, boot: bool, users: seq<int>, faults: int -> Io, stuck: set<Path>,
                         u: int, scope: int, token: int, p: Path)
    requires WorldInv(w, GetMaxInstallNum(env)) && NoRepeats(users) && u in users
    requires scope == FONT_SCOPE_APP || (boot && scope == FONT_SCOPE_SESSION)
    requires p in AfterStart(w, env, boot, users, faults, stuck).files && |p| >= 8
    ensures InstallDir(u) + [MakeAppIdentifier(scope, token)] <= p ==>
              InstallDir(u) + [MakeAppIdentifier(scope, token)] in stuck
    ensures boot && InstallDir(u) + [TEMP_DIR] <= p ==> InstallDir(u) + [TEMP_DIR] in stuck
  {
    hide AfterStart, WorldInv, ToString;
    StartRecovers(w, env, boot, users, faults, stuck);
    var dir := InstallDir(u);
    forall d: string | dir + [d] <= p ensures dir <= p && p[6] == d && p[..7] == dir + [d] {
      assert p[..7] == dir + [d] && dir == p[..6];
    }
  }

  /** Every record a start must not touch keeps its file. */
  lemma StartKeepsFiles(w: World, env: Env, boot: bool, users: seq<int>, faults: int -> Io, stuck: set<Path>,
                        u: int, it: Item)
    requires WorldInv(w, GetMaxInstallNum(env)) && NoRepeats(users)
    requires it in Items(w, u) && !Matches(it, if boot then AnyScope else AppScope) && Place(u, it) in w.files
    ensures var w2 := AfterStart(w, env, boot, users, faults, stuck);
      Place(u, it) in w2.files && w2.files[Place(u, it)] == w.files[Place(u, it)]
  {
    hide AfterStart, WorldInv, Place, ItemOk, InSweptDir;
    StartRecovers(w, env, boot, users, faults, stuck);
    assert ItemOk(it) by { WorldItemOk(w, u, it, GetMaxInstallNum(env)); }
    OutsideSweep(boot, users, u, it);
  }

  lemma OutsideSweep(boot: bool, users: seq<int>, u: int, it: Item)
    requires ItemOk(it) && !Matches(it, if boot then AnyScope else AppScope)
    ensures !InSweptDir(Place(u, it), boot, users)
  {
    hide IsFontName, GetFileName, UserFontPath, ScopeFontPath, ToString, InSomeInstallDir;
    if it.scope.Some? {
      var t :| it.appId.value == MakeAppIdentifier(it.scope.value, t);
      assert Place(u, it)[6] == it.appId.value && it.appId.value[0] == 's';
    } else {
      assert |Place(u, it)| == 7;
    }
  }

  lemma InvOfConfigs(w: World, w2: World, max: int)
    requires WorldInv(w, max) && w2.configs == w.configs
    ensures WorldInv(w2, max)
  {
  }

  lemma NobodyOwns(u: int, it: Item)
    ensures !OwnerRegistered(EMPTY_REGISTRY, u, it)
  {
    hide MakeAppIdentifier;
    assert ClientsOf(EMPTY_REGISTRY.clients, u) == {};
  }

  /** With nobody registered yet, the app-scope records are owned exactly if the start left none. */
  lemma StartOwnedExactly(w: World, p: Platform, boot: bool, users: seq<int>, faults: int -> Io, stuck: set<Path>)
    requires WorldInv(w, GetMaxInstallNum(p.env)) && NoRepeats(users) && forall u :: u in w.configs ==> u in users
    ensures AppRecordsOwned(Service(AfterStart(w, p.env, boot, users, faults, stuck), EMPTY_REGISTRY))
            <==> forall u :: u in users && u >= 0 ==> StartWrites(w, boot, u, faults(u))
  {
    hide WorldInv, AfterStart, OwnerRegistered, Left, StartWrites, Matches;
    var w2 := AfterStart(w, p.env, boot, users, faults, stuck);
    StartRecovers(w, p.env, boot, users, faults, stuck);
    forall u: int, it: Item ensures !OwnerRegistered(EMPTY_REGISTRY, u, it) {
      NobodyOwns(u, it);
    }
    forall u
      ensures (forall it :: it in Left(w, boot, u, faults(u)) ==> !Matches(it, AppScope)) <==>
              StartWrites(w, boot, u, faults(u))
    {
      LeavesNoAppExactly(w, boot, u, faults(u));
    }
    forall u | u !in users ensures Items(w2, u) == [] {
      assert u !in w.configs;
    }
    forall u | u in users ensures Items(w2, u) == Left(w, boot, u, faults(u)) {
    }
  }

  /**
    After a boot or an ordinary start whose cleanup task ran over all users first, every app-scope
    record belongs to a client of that user registered at that moment, throughout every run of
    requests and client deaths, exactly when no config write of the start's cleanup fails for an
    app-scope record, and none of a leaving client's cleanup.
   */
  lemma AppRecordsBelongToClients(w: World, p: Platform, boot: bool, users: seq<int>, faults: int -> Io,
                                  stuck: set<Path>, requests: seq<Request>)
    requires WorldInv(w, GetMaxInstallNum(p.env)) && NoRepeats(users) && forall u :: u in w.configs ==> u in users
    requires RegularRun(Service(AfterStart(w, p.env, boot, users, faults, stuck), EMPTY_REGISTRY), p, requests)
    ensures var s := Service(AfterStart(w, p.env, boot, users, faults, stuck), EMPTY_REGISTRY);
            OwnedThroughout(s, p, requests) <==>
              (forall u :: u in users && u >= 0 ==> StartWrites(w, boot, u, faults(u))) && CleanRun(s, p, requests)
  {
    var mid := Run(w, p.env, StartCalls(boot, users, faults));
    var s := Service(AfterStart(w, p.env, boot, users, faults, stuck), EMPTY_REGISTRY);
    assert s.world.configs == mid.configs;
    hide WorldInv, RegularRun, Run, AfterStart, OwnerRegistered, StartWrites, CleanRun, AppRecordsOwned, Left;
    StartOwnedExactly(w, p, boot, users, faults, stuck);
    StartFilters(w, p.env, boot, users, faults, 0);
    InvOfConfigs(mid, s.world, GetMaxInstallNum(p.env));
    EmptyRegistryAgrees(p);
    if AppRecordsOwned(s) {
      OwnedExactlyWhileClean(s, p, requests);
    }
  }
}
