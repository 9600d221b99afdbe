/**
  What every record list keeps, and what each operation does to a list and to the files
  when those invariants hold.
 */
module StoreInvariants {
  import opened Wrappers
  import opened Paths
  import opened FileCopy
  import opened RecordStore
  import opened FontStore

  // ----- Records -----

  ghost predicate IsAppIdentifier(scope: int, a: string)
  {
    exists tokenId: int :: a == MakeAppIdentifier(scope, tokenId)
  }

  predicate IsFontName(name: string)
  {
    IsStamped(name) && '/' !in name
  }

  predicate UserItemOk(it: Item)
  {
    && it.scope.None? && it.srcPath.None? && it.appId.None?
    && it.path.Some?
    && IsFontName(GetFileName(it.path.value))
    && it.path.value == UserFontPath(GetFileName(it.path.value))
  }

  ghost predicate ScopeItemOk(it: Item)
  {
    && it.scope.Some? && (it.scope.value == FONT_SCOPE_APP || it.scope.value == FONT_SCOPE_SESSION)
    && it.srcPath.Some? && it.srcPath.value != ""
    && it.appId.Some? && IsAppIdentifier(it.scope.value, it.appId.value)
    && it.path.Some?
    && IsFontName(GetFileName(it.path.value))
    && it.path.value == ScopeFontPath(it.appId.value, GetFileName(it.path.value))
  }

  ghost predicate ItemOk(it: Item)
  {
    && (UserItemOk(it) || ScopeItemOk(it))
    && it.names.Some? && it.names.value != []
  }

  lemma ItemOkShape(it: Item)
    requires ItemOk(it)
    ensures it.path.Some? && it.names.Some? && it.names.value != []
    ensures it.scope.Some? <==> it.srcPath.Some?
    ensures it.scope.Some? <==> it.appId.Some?
    ensures it.scope.Some? ==> it.scope.value == FONT_SCOPE_APP || it.scope.value == FONT_SCOPE_SESSION
  {
  }

  /** No path, font name or source url in common. */
  ghost predicate Apart(a: Item, b: Item)
  {
    && a.path != b.path
    && (a.names.Some? && b.names.Some? ==> forall n :: n in a.names.value ==> n !in b.names.value)
    && (a.srcPath.Some? ==> a.srcPath != b.srcPath)
  }

  ghost predicate RecordsInv(items: seq<Item>)
  {
    && (forall i :: 0 <= i < |items| ==> ItemOk(items[i]))
    && (forall i, j :: 0 <= i < |items| && 0 <= j < |items| && i != j ==> Apart(items[i], items[j]))
  }

  ghost predicate ConfigInv(file: ConfigFile, max: int)
  {
    HasArray(file) && IsCurrent(file.versions) && RecordsInv(file.fonts.items) && |file.fonts.items| <= max
  }

  ghost predicate WorldInv(w: World, max: int)
  {
    forall u :: u in w.configs ==> ConfigInv(w.configs[u], max)
  }

  lemma InvRemoveAt(items: seq<Item>, i: nat)
    requires RecordsInv(items) && i < |items|
    ensures RecordsInv(RemoveAt(items, i))
  {
    hide ItemOk, Apart;
    var kept := RemoveAt(items, i);
    assert forall j :: 0 <= j < |kept| ==> kept[j] == items[if j < i then j else j + 1];
  }

  lemma InvRemoveFirst(items: seq<Item>, key: Key)
    requires RecordsInv(items)
    ensures RecordsInv(RemoveFirst(items, key)) && |RemoveFirst(items, key)| <= |items|
  {
    hide RecordsInv, Matches;
    if First(items, key) < |items| {
      InvRemoveAt(items, First(items, key));
    }
  }

  lemma {:induction false} InvRemoveEach(items: seq<Item>, urls: seq<string>, k: nat, failed: set<nat>)
    requires RecordsInv(items)
    ensures RecordsInv(RemoveEach(items, urls, k, failed)) && |RemoveEach(items, urls, k, failed)| <= |items|
    decreases |urls|
  {
    hide RecordsInv, RemoveFirst;
    if urls != [] {
      InvRemoveFirst(items, ByUrl(urls[0]));
      InvRemoveEach(if k in failed then items else RemoveFirst(items, ByUrl(urls[0])), urls[1..], k + 1, failed);
    }
  }

  lemma InvAppend(items: seq<Item>, x: Item)
    requires RecordsInv(items) && ItemOk(x)
    requires forall it :: it in items ==> Apart(it, x) && Apart(x, it)
    ensures RecordsInv(items + [x])
  {
    hide ItemOk, Apart;
    var all := items + [x];
    forall i, j | 0 <= i < |all| && 0 <= j < |all| && i != j
      ensures Apart(all[i], all[j])
    {
      assert i < |items| ==> all[i] == items[i] && items[i] in items;
      assert j < |items| ==> all[j] == items[j] && items[j] in items;
    }
  }

  lemma ItemsOk(items: seq<Item>)
    requires RecordsInv(items)
    ensures forall it :: it in items ==> ItemOk(it)
  {
    hide ItemOk, Apart;
  }

  lemma OneUrl(items: seq<Item>, i: nat)
    requires RecordsInv(items) && i < |items| && items[i].srcPath.Some?
    ensures forall it :: it in items && it.srcPath == items[i].srcPath ==> it == items[i]
  {
    hide ItemOk;
    forall it | it in items && it.srcPath == items[i].srcPath ensures it == items[i] {
      var j :| 0 <= j < |items| && items[j] == it;
      assert i != j ==> Apart(items[i], items[j]);
    }
  }

  // ----- Where a record's file lies -----

  /** The file of a record, below the install directory. */
  function Home(it: Item): Path
  {
    var name := GetFileName(OrElse(it.path, ""));
    if it.appId.Some? then [it.appId.value, name] else [name]
  }

  function Place(u: int, it: Item): Path
  {
    InstallDir(u) + Home(it)
  }

  predicate HasBackslash(it: Item)
  {
    '\\' in GetFileName(OrElse(it.path, ""))
  }

  lemma AppIdentifierIsEntryName(scope: int, a: string)
    requires IsAppIdentifier(scope, a)
    ensures IsEntryName(a) && a != TEMP_DIR && !IsStamped(a)
  {
    var t :| a == MakeAppIdentifier(scope, t);
    var s := if scope == FONT_SCOPE_APP then scope else FONT_SCOPE_SESSION;
    MakeAppIdentifierInjective(s, t, s, t);
    assert a[0] == if scope == FONT_SCOPE_APP then 'a' else 's';
  }

  lemma FontNameIsEntryName(name: string)
    requires IsFontName(name)
    ensures IsEntryName(name) && name != TEMP_DIR
  {
    assert TEMP_DIR[0] == 't';
  }

  /** The string in a record leads to its place, both ways. */
  lemma PlaceOf(u: int, it: Item)
    requires ItemOk(it)
    ensures RealPath(u, it.path.value) == Place(u, it)
    ensures Resolve(u, it.path.value) == if HasBackslash(it) then None else Some(Place(u, it))
    ensures TEMP_DIR !in Home(it) && Home(it) != []
    ensures it.path.value != ""
  {
    hide RealPath, Resolve, IsStamped;
    var name := GetFileName(it.path.value);
    FontNameIsEntryName(name);
    if UserItemOk(it) {
      UserFontPathResolves(u, name);
    } else {
      AppIdentifierIsEntryName(it.scope.value, it.appId.value);
      ScopeFontPathResolves(u, it.appId.value, name);
    }
    assert |it.path.value| >= |INSTALL_PATH_APP|;
  }

  lemma PlacesApart(u: int, a: Item, b: Item)
    requires ItemOk(a) && ItemOk(b)
    ensures Place(u, a) == Place(u, b) <==> a.path == b.path
  {
    hide RealPath, Resolve, UserFontPath, ScopeFontPath, IsFontName, IsAppIdentifier, GetFileName;
    PlaceOf(u, a);
    PlaceOf(u, b);
    if Place(u, a) == Place(u, b) {
      assert Place(u, a)[6..] == Home(a) && Place(u, b)[6..] == Home(b);
      assert Home(a)[0] == Home(b)[0] && Home(a)[|Home(a)| - 1] == Home(b)[|Home(b)| - 1];
      assert a.appId == b.appId;
    }
  }

  lemma DistinctPlaces(items: seq<Item>, u: int, a: Item, b: Item)
    requires RecordsInv(items) && a in items && b in items && a != b
    ensures Place(u, a) != Place(u, b)
  {
    hide ItemOk, Place;
    ItemsOk(items);
    var i :| 0 <= i < |items| && items[i] == a;
    var j :| 0 <= j < |items| && items[j] == b;
    assert Apart(items[i], items[j]);
    PlacesApart(u, a, b);
  }

  lemma NotBelowApp(u: int, it: Item, app: string)
    requires ItemOk(it) && it.appId != Some(app) && !IsStamped(app)
    ensures !(InstallDir(u) + [app] <= Place(u, it))
  {
    hide InstallDir, Resolve, RealPath, IsAppIdentifier, UserFontPath, ScopeFontPath, GetFileName;
    var dir := InstallDir(u);
    assert Home(it)[0] != app;
    assert (dir + [app])[|dir|] == app && (dir + Home(it))[|dir|] == Home(it)[0];
  }
}
