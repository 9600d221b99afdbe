/**
  The content of a font config file: version entries and an ordered list of records,
  at the level of JSON members, and what the scans of that list compute.
 */
module RecordStore {
  import opened Wrappers
  import opened Paths
  import opened FileCopy

  const FONT_CONFIG_FILE := "install_fontconfig.json"
  const FONT_CONFIG_VERSION_7 := "7.0"
  const VERSION := 1

  datatype VersionEntry = Number(n: int) | Text(s: string) | OtherValue

  /** One element of "fontlist". A member that is absent or of the wrong JSON type is None. */
  datatype Item = Item(path: Option<string>, names: Option<seq<string>>, scope: Option<int>,
                       srcPath: Option<string>, appId: Option<string>, bundle: Option<string>)

  /** "fontlist": an object's members count as items too, since an insert can add one. */
  datatype FontList = Missing | Scalar | Object(members: seq<Item>) | Array(items: seq<Item>)

  datatype ConfigFile = NoFile | Malformed | Parsed(versions: seq<VersionEntry>, fonts: FontList)

  datatype Record = Record(fontPath: string, fullNames: seq<string>, scope: int,
                           srcPath: string, appIdentifier: string, bundleName: string)

  const FRESH_CONFIG := Parsed([Text(FONT_CONFIG_VERSION_7)], Array([]))

  predicate HasArray(file: ConfigFile)
  {
    file.Parsed? && file.fonts.Array?
  }

  function ItemsOf(file: ConfigFile): seq<Item>
  {
    if HasArray(file) then file.fonts.items else []
  }

  // ----- Records and items -----

  function OrElse<T>(o: Option<T>, default: T): T
  {
    if o.Some? then o.value else default
  }

  function NonEmpty(s: string): Option<string>
  {
    if s == "" then None else Some(s)
  }

  function ConstructItem(fontPath: string, fullNames: seq<string>): Item
  {
    Item(Some(fontPath), Some(fullNames), None, None, None, None)
  }

  function ConstructScopeItem(r: Record): Item
  {
    Item(Some(r.fontPath), Some(r.fullNames), if r.scope >= 0 then Some(r.scope) else None,
         NonEmpty(r.srcPath), NonEmpty(r.appIdentifier), NonEmpty(r.bundleName))
  }

  function ParseScopeRecord(it: Item): Record
  {
    Record(OrElse(it.path, ""), OrElse(it.names, []), OrElse(it.scope, FONT_SCOPE_NONE),
           OrElse(it.srcPath, ""), OrElse(it.appId, ""), OrElse(it.bundle, ""))
  }

  /** A record survives being written and read back, except for scopes below -1. */
  lemma RecordRoundTrip(r: Record)
    ensures ParseScopeRecord(ConstructScopeItem(r)) == r <==> r.scope >= FONT_SCOPE_NONE
    ensures r.scope == FONT_SCOPE_NONE && r.srcPath == r.appIdentifier == r.bundleName == "" ==>
              ConstructScopeItem(r) == ConstructItem(r.fontPath, r.fullNames)
  {
    var back := ParseScopeRecord(ConstructScopeItem(r));
    assert back.scope == if r.scope >= 0 then r.scope else FONT_SCOPE_NONE;
    assert back == r.(scope := back.scope);
  }

  // ----- Scans -----

  /** What a scan of the list looks for. */
  datatype Key = ByPath(s: string) | ByName(s: string) | ByUrl(s: string) | ByApp(s: string)
               | AnyScope | AppScope

  predicate Matches(it: Item, key: Key)
  {
    match key
    case ByPath(s) => it.path == Some(s)
    case ByName(s) => it.names.Some? && s in it.names.value
    case ByUrl(s) => it.srcPath == Some(s)
    case ByApp(s) => it.appId == Some(s)
    case AnyScope => it.scope.Some? && it.scope.value >= 0
    case AppScope => it.scope == Some(FONT_SCOPE_APP)
  }

  /** Index of the first match, or the length. */
  function First(items: seq<Item>, key: Key): (i: nat)
    ensures i <= |items|
    ensures forall j :: 0 <= j < i ==> !Matches(items[j], key)
    ensures i < |items| ==> Matches(items[i], key)
  {
    if items == [] || Matches(items[0], key) then 0 else 1 + First(items[1..], key)
  }

  function RemoveAt(items: seq<Item>, i: nat): seq<Item>
    requires i < |items|
  {
    items[..i] + items[i + 1..]
  }

  function RemoveFirst(items: seq<Item>, key: Key): seq<Item>
  {
    var i := First(items, key);
    if i < |items| then RemoveAt(items, i) else items
  }

  function Select(items: seq<Item>, key: Key): seq<Item>
  {
    if items == [] then []
    else (if Matches(items[0], key) then [items[0]] else []) + Select(items[1..], key)
  }

  function Without(items: seq<Item>, key: Key): seq<Item>
  {
    if items == [] then []
    else (if Matches(items[0], key) then [] else [items[0]]) + Without(items[1..], key)
  }

  lemma {:induction false} FirstIs(items: seq<Item>, key: Key, i: nat)
    requires i <= |items|
    requires forall j :: 0 <= j < i ==> !Matches(items[j], key)
    requires i < |items| ==> Matches(items[i], key)
    ensures First(items, key) == i
  {
    var f := First(items, key);
    assert f < i ==> f < |items|;
    assert i < f ==> i < |items|;
  }

  lemma FirstCons(x: Item, rest: seq<Item>, key: Key)
    ensures First([x] + rest, key) == if Matches(x, key) then 0 else 1 + First(rest, key)
  {
    hide Matches;
    var all := [x] + rest;
    assert all[0] == x && all[1..] == rest;
  }

  lemma RemoveFirstCons(x: Item, rest: seq<Item>, key: Key)
    ensures RemoveFirst([x] + rest, key) == if Matches(x, key) then rest else [x] + RemoveFirst(rest, key)
  {
    hide Matches, First;
    FirstCons(x, rest, key);
    var all, i := [x] + rest, First(rest, key);
    assert all[1..] == rest;
    assert i < |rest| ==> RemoveAt(all, i + 1) == [x] + RemoveAt(rest, i);
  }

  lemma {:induction false} SelectAppend(items: seq<Item>, x: Item, key: Key)
    ensures Select(items + [x], key) == Select(items, key) + (if Matches(x, key) then [x] else [])
  {
    if items == [] {
      assert items + [x] == [x];
    } else {
      hide Matches;
      var all, rest := items + [x], items[1..];
      assert all[0] == items[0] && all[1..] == rest + [x];
      SelectAppend(rest, x, key);
      var head := if Matches(items[0], key) then [items[0]] else [];
      var last := if Matches(x, key) then [x] else [];
      assert head + (Select(rest, key) + last) == head + Select(rest, key) + last;
    }
  }

  lemma {:induction false} SelectMembers(items: seq<Item>, key: Key)
    ensures forall it :: it in Select(items, key) <==> it in items && Matches(it, key)
    ensures forall it :: it in Without(items, key) <==> it in items && !Matches(it, key)
  {
    if items != [] {
      SelectMembers(items[1..], key);
      assert items == [items[0]] + items[1..];
    }
  }

  // ----- Deleting a snapshot one record at a time -----

  function UrlOf(it: Item): string
  {
    OrElse(it.srcPath, "")
  }

  function Urls(items: seq<Item>): (urls: seq<string>)
    ensures |urls| == |items|
    ensures forall i :: 0 <= i < |items| ==> urls[i] == UrlOf(items[i])
  {
    if items == [] then [] else [UrlOf(items[0])] + Urls(items[1..])
  }

  /** Delete the first record of each url in turn; the k-th write, counted from `k`, may fail. */
  function RemoveEach(items: seq<Item>, urls: seq<string>, k: nat, failed: set<nat>): seq<Item>
    decreases |urls|
  {
    if urls == [] then items
    else RemoveEach(if k in failed then items else RemoveFirst(items, ByUrl(urls[0])), urls[1..], k + 1, failed)
  }

  /**
    Every matching record has a url, and no record that does not match stands before it with the same url.
   */
  ghost predicate Removable(items: seq<Item>, key: Key)
  {
    && (forall i :: 0 <= i < |items| && Matches(items[i], key) ==> items[i].srcPath.Some?)
    && (forall i, j :: 0 <= i < j < |items| && Matches(items[j], key) && items[i].srcPath == items[j].srcPath ==>
          Matches(items[i], key))
  }

  lemma {:induction false} RemoveEachKeepsHead(x: Item, rest: seq<Item>, urls: seq<string>, k: nat, failed: set<nat>)
    requires x.srcPath.Some? ==> x.srcPath.value !in urls
    ensures RemoveEach([x] + rest, urls, k, failed) == [x] + RemoveEach(rest, urls, k, failed)
    decreases |urls|
  {
    hide RemoveFirst;
    if urls != [] {
      RemoveFirstCons(x, rest, ByUrl(urls[0]));
      assert x.srcPath.Some? ==> x.srcPath.value !in urls[1..];
      RemoveEachKeepsHead(x, if k in failed then rest else RemoveFirst(rest, ByUrl(urls[0])), urls[1..], k + 1, failed);
    }
  }

  function Count(items: seq<Item>, key: Key): nat
  {
    |Select(items, key)|
  }

  lemma {:induction false} CountRemoveAt(items: seq<Item>, i: nat, key: Key)
    requires i < |items|
    ensures Count(RemoveAt(items, i), key) == Count(items, key) - (if Matches(items[i], key) then 1 else 0)
  {
    if i == 0 {
      assert RemoveAt(items, i) == items[1..];
    } else {
      assert RemoveAt(items, i)[1..] == RemoveAt(items[1..], i - 1);
      CountRemoveAt(items[1..], i - 1, key);
    }
  }

  lemma {:induction false} RemoveEachLeaves(items: seq<Item>, urls: seq<string>, k: nat, key: Key)
    ensures Count(RemoveEach(items, urls, k, {}), key) >= Count(items, key) - |urls|
    ensures items != [] && !Matches(items[0], key) && items[0].srcPath.Some? && items[0].srcPath.value in urls ==>
              Count(RemoveEach(items, urls, k, {}), key) > Count(items, key) - |urls|
    decreases |urls|
  {
    if urls != [] {
      var i := First(items, ByUrl(urls[0]));
      var next := RemoveFirst(items, ByUrl(urls[0]));
      if i < |items| {
        CountRemoveAt(items, i, key);
      }
      RemoveEachLeaves(next, urls[1..], k + 1, key);
      if items != [] && !Matches(items[0], key) && items[0].srcPath.Some? && items[0].srcPath.value in urls {
        if items[0].srcPath.value != urls[0] {
          assert items[0].srcPath.value in urls[1..];
        }
      }
    }
  }

  /** A record without a url outlives every deletion by url. */
  lemma {:induction false} NoUrlStays(items: seq<Item>, x: Item, urls: seq<string>, k: nat)
    requires x in items && x.srcPath.None?
    ensures x in RemoveEach(items, urls, k, {})
    decreases |urls|
  {
    if urls != [] {
      var i := First(items, ByUrl(urls[0]));
      var j :| 0 <= j < |items| && items[j] == x;
      if i < |items| {
        assert RemoveAt(items, i)[if j < i then j else j - 1] == x;
      }
      NoUrlStays(RemoveFirst(items, ByUrl(urls[0])), x, urls[1..], k + 1);
    }
  }

  lemma {:induction false} WithoutHasNone(items: seq<Item>, key: Key)
    ensures Count(Without(items, key), key) == 0
  {
    if items != [] {
      WithoutHasNone(items[1..], key);
      if Matches(items[0], key) {
        assert Without(items, key) == Without(items[1..], key);
      } else {
        assert Without(items, key)[1..] == Without(items[1..], key);
      }
    }
  }

  lemma UrlSelected(items: seq<Item>, key: Key, url: string)
    requires forall it :: it in items && Matches(it, key) ==> it.srcPath.Some?
    ensures url in Urls(Select(items, key)) <==>
            exists j :: 0 <= j < |items| && Matches(items[j], key) && items[j].srcPath == Some(url)
  {
    SelectMembers(items, key);
    var chosen, urls := Select(items, key), Urls(Select(items, key));
    if url in urls {
      var i :| 0 <= i < |urls| && urls[i] == url;
      assert chosen[i] in chosen;
      var j :| 0 <= j < |items| && items[j] == chosen[i];
    }
    if j :| 0 <= j < |items| && Matches(items[j], key) && items[j].srcPath == Some(url) {
      assert items[j] in items;
      var i :| 0 <= i < |chosen| && chosen[i] == items[j];
      assert urls[i] == url;
    }
  }

  ghost predicate RemovableHead(x: Item, rest: seq<Item>, key: Key)
  {
    if Matches(x, key) then x.srcPath.Some?
    else x.srcPath.Some? ==> x.srcPath.value !in Urls(Select(rest, key))
  }

  lemma RemovableUncons(x: Item, rest: seq<Item>, key: Key)
    requires Removable([x] + rest, key)
    ensures Removable(rest, key) && RemovableHead(x, rest, key)
  {
    var all := [x] + rest;
    forall i | 0 <= i < |rest| && Matches(rest[i], key)
      ensures rest[i].srcPath.Some?
      ensures rest[i].srcPath == x.srcPath ==> Matches(x, key)
    {
      assert all[i + 1] == rest[i];
      assert Matches(all[i + 1], key);
      assert all[0].srcPath == all[i + 1].srcPath ==> Matches(all[0], key);
    }
    forall i, j | 0 <= i < j < |rest| && Matches(rest[j], key) && rest[i].srcPath == rest[j].srcPath
      ensures Matches(rest[i], key)
    {
      assert Matches(all[j + 1], key) && all[i + 1].srcPath == all[j + 1].srcPath;
    }
    assert Matches(x, key) ==> Matches(all[0], key);
    if x.srcPath.Some? {
      UrlSelected(rest, key, x.srcPath.value);
    }
  }

  lemma RemovableCons(x: Item, rest: seq<Item>, key: Key)
    requires Removable(rest, key) && RemovableHead(x, rest, key)
    ensures Removable([x] + rest, key)
  {
    var all := [x] + rest;
    if x.srcPath.Some? {
      UrlSelected(rest, key, x.srcPath.value);
    }
    forall i, j | 0 <= i < j < |all| && Matches(all[j], key) && all[i].srcPath == all[j].srcPath
      ensures Matches(all[i], key)
    {
      assert all[j] == rest[j - 1];
      if i > 0 {
        assert all[i] == rest[i - 1];
      }
    }
  }

  lemma CleanupStep(x: Item, rest: seq<Item>, key: Key, k: nat)
    ensures var urls := Urls(Select([x] + rest, key));
            if Matches(x, key) then
              (x.srcPath.Some? ==>
                RemoveEach([x] + rest, urls, k, {}) == RemoveEach(rest, Urls(Select(rest, key)), k + 1, {}))
            else
              && urls == Urls(Select(rest, key))
              && ((x.srcPath.Some? ==> x.srcPath.value !in urls) ==>
                    RemoveEach([x] + rest, urls, k, {}) == [x] + RemoveEach(rest, urls, k, {}))
    ensures Without([x] + rest, key) == (if Matches(x, key) then [] else [x]) + Without(rest, key)
  {
    var items := [x] + rest;
    assert items[1..] == rest;
    var urls := Urls(Select(items, key));
    if Matches(x, key) {
      assert Select(items, key)[1..] == Select(rest, key);
      assert urls[1..] == Urls(Select(rest, key));
      RemoveFirstCons(x, rest, ByUrl(urls[0]));
    } else {
      assert Select(items, key) == Select(rest, key);
      if x.srcPath.Some? ==> x.srcPath.value !in urls {
        RemoveEachKeepsHead(x, rest, urls, k, {});
      }
    }
  }

  /** Deleting the matching records one by one, by url, filters them out if the list is Removable. */
  lemma {:induction false} CleanupFilters(items: seq<Item>, key: Key, k: nat)
    requires Removable(items, key)
    ensures RemoveEach(items, Urls(Select(items, key)), k, {}) == Without(items, key)
    decreases |items|
  {
    if items != [] {
      var x, rest := items[0], items[1..];
      assert items == [x] + rest;
      RemovableUncons(x, rest, key);
      CleanupStep(x, rest, key, k);
      CleanupFilters(rest, key, if Matches(x, key) then k + 1 else k);
    }
  }

  /** And only then. */
  lemma {:induction false} CleanupFiltersOnlyIf(items: seq<Item>, key: Key, k: nat)
    requires RemoveEach(items, Urls(Select(items, key)), k, {}) == Without(items, key)
    ensures Removable(items, key)
    decreases |items|
  {
    if items != [] {
      var x, rest := items[0], items[1..];
      assert items == [x] + rest;
      var urls := Urls(Select(items, key));
      SelectMembers(items, key);
      if Matches(x, key) {
        if x.srcPath.None? {
          NoUrlStays(items, x, urls, k);
        }
      } else {
        WithoutHasNone(items, key);
        RemoveEachLeaves(items, urls, k, key);
      }
      CleanupStep(x, rest, key, k);
      CleanupFiltersOnlyIf(rest, key, if Matches(x, key) then k + 1 else k);
      RemovableCons(x, rest, key);
    }
  }

  /** The exact condition under which per-record cleanup is the order-preserving filter. */
  lemma CleanupExact(items: seq<Item>, key: Key)
    ensures RemoveEach(items, Urls(Select(items, key)), 0, {}) == Without(items, key) <==> Removable(items, key)
  {
    if Removable(items, key) {
      CleanupFilters(items, key, 0);
    }
    if RemoveEach(items, Urls(Select(items, key)), 0, {}) == Without(items, key) {
      CleanupFiltersOnlyIf(items, key, 0);
    }
  }

  /**
    If the scope records are exactly those with a url, a user's cleanup leaves no scope record, even
    when urls repeat, and keeps every other record in order.
   */
  lemma UserCleanupComplete(items: seq<Item>)
    requires forall it :: it in items ==> (Matches(it, AnyScope) <==> it.srcPath.Some?)
    ensures var left := RemoveEach(items, Urls(Select(items, AnyScope)), 0, {});
            left == Without(items, AnyScope) && forall it :: it in left ==> !(it.scope.Some? && it.scope.value >= 0)
  {
    assert forall it :: Matches(it, AnyScope) <==> it.scope.Some? && it.scope.value >= 0;
    hide Matches, RemoveEach, Urls, Select, Without;
    assert forall i :: 0 <= i < |items| ==> items[i] in items;
    CleanupFilters(items, AnyScope, 0);
    SelectMembers(items, AnyScope);
  }

  // ----- Cleanup with failing writes -----

  /** The records a cleanup is meant to leave: the j-th selected one stays exactly if write k + j fails. */
  function Surviving(items: seq<Item>, key: Key, k: nat, failed: set<nat>): seq<Item>
  {
    if items == [] then []
    else if !Matches(items[0], key) then [items[0]] + Surviving(items[1..], key, k, failed)
    else (if k in failed then [items[0]] else []) + Surviving(items[1..], key, k + 1, failed)
  }

  /** Every selected record has a url that no other record has. */
  ghost predicate OwnUrls(items: seq<Item>, key: Key)
  {
    && (forall i :: 0 <= i < |items| && Matches(items[i], key) ==> items[i].srcPath.Some?)
    && (forall i, j :: 0 <= i < |items| && 0 <= j < |items| && i != j && Matches(items[i], key) ==>
          items[i].srcPath != items[j].srcPath)
  }

  lemma OwnUrlsUncons(x: Item, rest: seq<Item>, key: Key)
    requires OwnUrls([x] + rest, key)
    ensures OwnUrls(rest, key)
    ensures Matches(x, key) ==> x.srcPath.Some?
    ensures x.srcPath.Some? ==> x.srcPath.value !in Urls(Select(rest, key))
  {
    hide Matches, Urls, Select;
    var all := [x] + rest;
    assert all[0] == x && forall i :: 0 <= i < |rest| ==> all[i + 1] == rest[i];
    forall it | it in rest && Matches(it, key) ensures it.srcPath.Some? {
      var i :| 0 <= i < |rest| && rest[i] == it;
    }
    if x.srcPath.Some? {
      UrlSelected(rest, key, x.srcPath.value);
    }
  }

  lemma SurvivorStep(x: Item, rest: seq<Item>, key: Key, k: nat, failed: set<nat>)
    requires OwnUrls([x] + rest, key)
    ensures var urls, others := Urls(Select([x] + rest, key)), Urls(Select(rest, key));
            RemoveEach([x] + rest, urls, k, failed)
            == if !Matches(x, key) then [x] + RemoveEach(rest, others, k, failed)
               else (if k in failed then [x] else []) + RemoveEach(rest, others, k + 1, failed)
  {
    OwnUrlsUncons(x, rest, key);
    var all, urls, others := [x] + rest, Urls(Select([x] + rest, key)), Urls(Select(rest, key));
    assert all[0] == x && all[1..] == rest;
    if Matches(x, key) {
      assert Select(all, key)[1..] == Select(rest, key);
      assert urls[1..] == others && urls[0] == x.srcPath.value;
      hide Select, Urls, First;
      RemoveFirstCons(x, rest, ByUrl(urls[0]));
      RemoveEachKeepsHead(x, rest, others, k + 1, failed);
    } else {
      assert Select(all, key) == Select(rest, key);
      hide Select, Urls, RemoveEach;
      RemoveEachKeepsHead(x, rest, others, k, failed);
    }
  }

  /** Whatever writes fail, a cleanup of records with urls of their own leaves exactly the survivors. */
  lemma {:induction false} CleanupLeavesSurvivors(items: seq<Item>, key: Key, k: nat, failed: set<nat>)
    requires OwnUrls(items, key)
    ensures RemoveEach(items, Urls(Select(items, key)), k, failed) == Surviving(items, key, k, failed)
    decreases |items|
  {
    hide Matches, OwnUrls, RemoveEach, Urls, Select;
    if items != [] {
      var x, rest := items[0], items[1..];
      assert items == [x] + rest;
      OwnUrlsUncons(x, rest, key);
      SurvivorStep(x, rest, key, k, failed);
      CleanupLeavesSurvivors(rest, key, if Matches(x, key) then k + 1 else k, failed);
    } else {
      NothingSelected(key, k, failed);
    }
  }

  lemma NothingSelected(key: Key, k: nat, failed: set<nat>)
    ensures RemoveEach([], Urls(Select([], key)), k, failed) == []
  {
  }

  predicate Survives(items: seq<Item>, key: Key, k: nat, failed: set<nat>, it: Item)
  {
    exists j :: 0 <= j < |Select(items, key)| && Select(items, key)[j] == it && k + j in failed
  }

  lemma {:induction false} SurvivingMembers(items: seq<Item>, key: Key, k: nat, failed: set<nat>, it: Item)
    ensures it in Surviving(items, key, k, failed) <==>
            (it in items && !Matches(it, key)) || Survives(items, key, k, failed, it)
    decreases |items|
  {
    hide Matches, Survives;
    if items != [] {
      var x, rest := items[0], items[1..];
      assert items == [x] + rest;
      SurvivesCons(x, rest, key, k, failed, it);
      SurvivingMembers(rest, key, if Matches(x, key) then k + 1 else k, failed, it);
    } else {
      assert !Survives(items, key, k, failed, it) by { SurvivesNone(key, k, failed, it); }
    }
  }

  lemma SurvivesNone(key: Key, k: nat, failed: set<nat>, it: Item)
    ensures !Survives([], key, k, failed, it)
  {
  }

  lemma SurvivesCons(x: Item, rest: seq<Item>, key: Key, k: nat, failed: set<nat>, it: Item)
    ensures Survives([x] + rest, key, k, failed, it) <==>
            if Matches(x, key) then (it == x && k in failed) || Survives(rest, key, k + 1, failed, it)
            else Survives(rest, key, k, failed, it)
  {
    var all := [x] + rest;
    assert all[0] == x && all[1..] == rest;
    var chosen, others := Select(all, key), Select(rest, key);
    if Matches(x, key) {
      assert chosen == [x] + others;
      hide Select, Matches;
      if Survives(rest, key, k + 1, failed, it) {
        var j :| 0 <= j < |others| && others[j] == it && k + 1 + j in failed;
        assert chosen[j + 1] == it && k + (j + 1) in failed;
      }
      if j :| 0 <= j < |chosen| && chosen[j] == it && k + j in failed {
        assert j > 0 ==> others[j - 1] == it && k + 1 + (j - 1) in failed;
      }
      assert it == x && k in failed ==> chosen[0] == it && k + 0 in failed;
    } else {
      assert chosen == others;
    }
  }

  /** None of the n writes from the k-th on fails. */
  predicate WritesHold(k: nat, n: nat, failed: set<nat>)
  {
    forall w :: w in failed ==> !(k <= w < k + n)
  }

  /** The survivors are the plain filter exactly when every write of the cleanup succeeds. */
  lemma SurvivingIsFilter(items: seq<Item>, key: Key, k: nat, failed: set<nat>)
    ensures Surviving(items, key, k, failed) == Without(items, key) <==> WritesHold(k, Count(items, key), failed)
  {
    hide Matches, Survives;
    SelectMembers(items, key);
    if WritesHold(k, Count(items, key), failed) {
      NoneSurvive(items, key, k, failed);
    } else {
      var w :| w in failed && k <= w < k + Count(items, key);
      var it := Select(items, key)[w - k];
      SurvivesAt(items, key, k, failed, w - k);
      SurvivingMembers(items, key, k, failed, it);
      assert it in Select(items, key) && it !in Without(items, key);
    }
  }

  lemma SurvivesAt(items: seq<Item>, key: Key, k: nat, failed: set<nat>, j: nat)
    requires j < |Select(items, key)| && k + j in failed
    ensures Survives(items, key, k, failed, Select(items, key)[j])
  {
  }

  lemma {:induction false} NoneSurvive(items: seq<Item>, key: Key, k: nat, failed: set<nat>)
    requires WritesHold(k, Count(items, key), failed)
    ensures Surviving(items, key, k, failed) == Without(items, key)
    decreases |items|
  {
    hide Matches;
    if items != [] {
      var x, rest := items[0], items[1..];
      if Matches(x, key) {
        assert Select(items, key) == [x] + Select(rest, key);
        assert k !in failed;
        NoneSurvive(rest, key, k + 1, failed);
      } else {
        assert Select(items, key) == Select(rest, key);
        NoneSurvive(rest, key, k, failed);
      }
    }
  }

  // ----- Version upgrade -----

  /** The names FontToolSet reads from a file's bytes. */
  type FontTool = Bytes -> seq<string>

  function GetFullNamesByPath(files: map<Path, Bytes>, tool: FontTool, path: string): seq<string>
  {
    if Lexical(path) in files then tool(files[Lexical(path)]) else []
  }

  function ConfigPath(user: int): string
  {
    InstallPath(user) + FONT_CONFIG_FILE
  }

  function RefreshItem(it: Item, user: int, files: map<Path, Bytes>, tool: FontTool): Item
  {
    if it.path.None? then it
    else it.(names := Some(GetFullNamesByPath(files, tool,
                                              ConfigSandBoxPathToRealPath(ConfigPath(user), it.path.value))))
  }

  function RefreshItems(items: seq<Item>, user: int, files: map<Path, Bytes>, tool: FontTool): (r: seq<Item>)
    ensures |r| == |items|
    ensures forall i :: 0 <= i < |items| ==> r[i] == RefreshItem(items[i], user, files, tool)
  {
    if items == [] then [] else [RefreshItem(items[0], user, files, tool)] + RefreshItems(items[1..], user, files, tool)
  }

  function RefreshFonts(fonts: FontList, user: int, files: map<Path, Bytes>, tool: FontTool): FontList
  {
    if fonts.Array? then Array(RefreshItems(fonts.items, user, files, tool)) else fonts
  }

  /**
    The upgrade gives a user-level record the names in its own file, and none if the file is gone.
    A scope record would get the names of a user-level file that happens to have its file name.
   */
  lemma RefreshedNames(it: Item, user: int, files: map<Path, Bytes>, tool: FontTool, app: string, name: string)
    requires IsEntryName(name) && IsEntryName(app)
    requires it.path == Some(UserFontPath(name)) || it.path == Some(ScopeFontPath(app, name))
    ensures var refreshed := RefreshItem(it, user, files, tool);
            var file := InstallDir(user) + [name];
            refreshed == it.(names := Some(if file in files then tool(files[file]) else []))
  {
    hide InstallDir, UserFontPath, ScopeFontPath, ConfigSandBoxPathToRealPath, InstallPath, Lexical, RealPath, IsEntryName;
    assert '/' !in FONT_CONFIG_FILE;
    UserFontPathResolves(user, name);
    ConfigResolverDropsScopeDir(user, FONT_CONFIG_FILE, app, name);
  }

  predicate IsCurrent(versions: seq<VersionEntry>)
  {
    versions != [] && versions[0] == Text(FONT_CONFIG_VERSION_7)
  }

  /** The versions CheckAndUpdateFontRecord knows how to bring to 7.0. */
  predicate IsUpgradable(versions: seq<VersionEntry>)
  {
    versions == [] || versions[0] == Number(VERSION) || IsCurrent(versions)
  }

  function UpgradeVersions(versions: seq<VersionEntry>): seq<VersionEntry>
  {
    if IsCurrent(versions) then versions
    else if versions != [] && versions[0] == Number(VERSION) then versions[0 := Text(FONT_CONFIG_VERSION_7)]
    else versions + [Text(FONT_CONFIG_VERSION_7)]
  }

  /** The file after a CheckAndUpdateFontRecord whose write succeeds. */
  function Upgrade(file: ConfigFile, user: int, files: map<Path, Bytes>, tool: FontTool): ConfigFile
  {
    if !file.Parsed? || IsCurrent(file.versions) then file
    else Parsed(UpgradeVersions(file.versions), RefreshFonts(file.fonts, user, files, tool))
  }

  predicate HasScopeItem(file: ConfigFile)
  {
    exists it :: it in ItemsOf(file) && Matches(it, AnyScope)
  }

  /** A config whose scope records, if any, were written after the upgrade. */
  predicate VersionInv(file: ConfigFile)
  {
    file.Parsed? ==> IsUpgradable(file.versions) && (HasScopeItem(file) ==> IsCurrent(file.versions))
  }

  /**
    The upgrade keeps every record's place and path, changes names only in files without
    scope records, and reaches version 7.0, where it stops changing anything, exactly from
    the versions it knows.
   */
  lemma UpgradeExact(file: ConfigFile, user: int, files: map<Path, Bytes>, tool: FontTool)
    requires file.Parsed?
    ensures var up := Upgrade(file, user, files, tool);
            && (IsCurrent(up.versions) <==> IsUpgradable(file.versions))
            && (Upgrade(up, user, files, tool).versions == up.versions <==> IsUpgradable(file.versions))
            && (IsUpgradable(file.versions) ==> Upgrade(up, user, files, tool) == up)
            && |ItemsOf(up)| == |ItemsOf(file)|
            && (forall i :: 0 <= i < |ItemsOf(file)| ==>
                  ItemsOf(up)[i] == ItemsOf(file)[i].(names := ItemsOf(up)[i].names))
            && (VersionInv(file) ==> VersionInv(up) && (HasScopeItem(file) ==> up == file))
  {
    var up := Upgrade(file, user, files, tool);
    UpgradeVersionsExact(file.versions);
    UpgradeItems(file, user, files, tool);
    UpgradeKeepsScope(file, user, files, tool);
  }

  lemma UpgradeVersionsExact(versions: seq<VersionEntry>)
    ensures var up := UpgradeVersions(versions);
            && (IsCurrent(up) <==> IsUpgradable(versions))
            && (UpgradeVersions(up) == up <==> IsUpgradable(versions))
            && (up != [] && up[0] == Text("7.0") <==> versions == [] || versions[0] in {Number(1), Text("7.0")})
            && (if versions != [] && versions[0] in {Number(1), Text("7.0")} then up[1..] == versions[1..]
                else up == versions + [Text("7.0")])
  {
    var up := UpgradeVersions(versions);
    if !IsUpgradable(versions) {
      assert up[0] == versions[0];
      assert |UpgradeVersions(up)| == |up| + 1;
    }
  }

  /** What an upgrade makes of each record: reread names for a user-level font, nothing without a path, nothing at 7.0. */
  lemma UpgradeRereads(file: ConfigFile, user: int, files: map<Path, Bytes>, tool: FontTool, i: nat, name: string)
    requires file.Parsed? && i < |ItemsOf(file)| && IsEntryName(name)
    ensures var up, it, home := Upgrade(file, user, files, tool), ItemsOf(file)[i], InstallDir(user) + [name];
            var current := file.versions != [] && file.versions[0] == Text("7.0");
            && |ItemsOf(up)| == |ItemsOf(file)|
            && (current ==> up == file)
            && (!current && it.path == Some(UserFontPath(name)) ==>
                  ItemsOf(up)[i] == it.(names := Some(if home in files then tool(files[home]) else [])))
            && (it.path.None? ==> ItemsOf(up)[i] == it)
  {
    hide UserFontPath, InstallDir, ConfigSandBoxPathToRealPath, Lexical;
    var it := ItemsOf(file)[i];
    if it.path == Some(UserFontPath(name)) {
      RefreshedNames(it, user, files, tool, "app", name);
    }
  }

  function UpgradeTimes(versions: seq<VersionEntry>, n: nat): seq<VersionEntry>
  {
    if n == 0 then versions else UpgradeVersions(UpgradeTimes(versions, n - 1))
  }

  function Repeat(v: VersionEntry, n: nat): (r: seq<VersionEntry>)
    ensures |r| == n
  {
    if n == 0 then [] else Repeat(v, n - 1) + [v]
  }

  /** From an unknown version every update appends one more key; from a known one only the first does anything. */
  lemma {:induction false} RepeatedUpgrades(versions: seq<VersionEntry>, n: nat)
    ensures UpgradeTimes(versions, n)
            == if !IsUpgradable(versions) then versions + Repeat(Text(FONT_CONFIG_VERSION_7), n)
               else if n == 0 then versions else UpgradeVersions(versions)
  {
    UpgradeVersionsExact(versions);
    if n == 0 {
      assert versions + [] == versions;
    } else {
      RepeatedUpgrades(versions, n - 1);
      var before := UpgradeTimes(versions, n - 1);
      assert !IsUpgradable(versions) ==> before[0] == versions[0];
    }
  }

  lemma UpgradeItems(file: ConfigFile, user: int, files: map<Path, Bytes>, tool: FontTool)
    ensures var items := ItemsOf(Upgrade(file, user, files, tool));
            && |items| == |ItemsOf(file)|
            && (forall i :: 0 <= i < |items| ==> items[i] == ItemsOf(file)[i].(names := items[i].names))
  {
  }

  lemma UpgradeKeepsScope(file: ConfigFile, user: int, files: map<Path, Bytes>, tool: FontTool)
    ensures HasScopeItem(Upgrade(file, user, files, tool)) ==> HasScopeItem(file)
  {
    UpgradeItems(file, user, files, tool);
    var up := Upgrade(file, user, files, tool);
    if HasScopeItem(up) {
      var it :| it in ItemsOf(up) && Matches(it, AnyScope);
      var i :| 0 <= i < |ItemsOf(up)| && ItemsOf(up)[i] == it;
      assert ItemsOf(file)[i] in ItemsOf(file) && Matches(ItemsOf(file)[i], AnyScope);
    }
  }
}
