/**
  Installing and uninstalling user-level fonts: what is dropped, what is added, when it
  succeeds, and what an uninstall gives back.
 */
module InstallTheorems {
  import opened Wrappers
  import opened Paths
  import opened FileCopy
  import opened RecordStore
  import opened FontStore
  import opened StoreInvariants

  // ----- Records that carry one of some names -----

  predicate Named(it: Item, names: seq<string>)
  {
    exists n :: n in names && Matches(it, ByName(n))
  }

  function Unnamed(items: seq<Item>, names: seq<string>): seq<Item>
  {
    if items == [] then []
    else (if Named(items[0], names) then [] else [items[0]]) + Unnamed(items[1..], names)
  }

  lemma {:induction false} UnnamedMembers(items: seq<Item>, names: seq<string>)
    ensures forall it :: it in Unnamed(items, names) <==> it in items && !Named(it, names)
    ensures |Unnamed(items, names)| <= |items|
  {
    if items != [] {
      UnnamedMembers(items[1..], names);
      assert items == [items[0]] + items[1..];
    }
  }

  lemma {:induction false} UnnamedAll(items: seq<Item>, names: seq<string>)
    requires forall it :: it in items ==> !Named(it, names)
    ensures Unnamed(items, names) == items
  {
    if items != [] {
      assert items[0] in items && forall it :: it in items[1..] ==> it in items;
      UnnamedAll(items[1..], names);
    }
  }

  lemma {:induction false} UnnamedOne(items: seq<Item>, n: string, i: nat)
    requires i < |items| && Matches(items[i], ByName(n))
    requires forall j :: 0 <= j < |items| && j != i ==> !Matches(items[j], ByName(n))
    ensures Unnamed(items, [n]) == RemoveAt(items, i)
  {
    hide Matches;
    var rest := items[1..];
    assert forall it :: Named(it, [n]) <==> Matches(it, ByName(n)) by { assert n in [n]; }
    if i == 0 {
      forall it | it in rest ensures !Named(it, [n]) {
        var j :| 0 <= j < |rest| && rest[j] == it;
        assert items[j + 1] == it;
      }
      UnnamedAll(rest, [n]);
      assert RemoveAt(items, 0) == rest;
    } else {
      assert forall j :: 0 <= j < |rest| ==> rest[j] == items[j + 1];
      UnnamedOne(rest, n, i - 1);
      assert RemoveAt(items, i) == [items[0]] + RemoveAt(rest, i - 1);
      assert !Named(items[0], [n]);
    }
  }

  lemma {:induction false} UnnamedTwice(items: seq<Item>, names: seq<string>, n: string)
    ensures Unnamed(Unnamed(items, names), [n]) == Unnamed(items, names + [n])
  {
    if items != [] {
      hide Matches;
      var x, rest := items[0], items[1..];
      UnnamedTwice(rest, names, n);
      assert Named(x, names + [n]) <==> Named(x, names) || Named(x, [n]) by {
        assert forall m :: m in names + [n] <==> m in names || m in [n];
      }
      if Named(x, names) {
        assert Unnamed(items, names) == Unnamed(rest, names);
      } else {
        assert Unnamed(items, names) == [x] + Unnamed(rest, names);
      }
    }
  }

  // ----- The stale loop -----

  ghost predicate Live(w: World, u: int, it: Item)
  {
    Place(u, it) in w.files
  }

  lemma RemoveAtMembers(items: seq<Item>, i: nat)
    requires i < |items|
    requires forall j :: 0 <= j < |items| && j != i ==> items[j] != items[i]
    ensures forall it :: it in RemoveAt(items, i) <==> it in items && it != items[i]
  {
    var kept := RemoveAt(items, i);
    assert forall j :: 0 <= j < |kept| ==> kept[j] == items[if j < i then j else j + 1];
    forall j | 0 <= j < |items| && j != i ensures items[j] in kept {
      assert kept[if j < i then j else j - 1] == items[j];
    }
  }

  /** A path or a font name belongs to one record at most. */
  lemma OnlyOne(items: seq<Item>, i: nat)
    requires RecordsInv(items) && i < |items|
    ensures items[i].path.Some?
    ensures forall j :: 0 <= j < |items| && j != i ==> items[j] != items[i] && items[j].path != items[i].path
    ensures forall j, n :: 0 <= j < |items| && j != i && Matches(items[i], ByName(n)) ==> !Matches(items[j], ByName(n))
    ensures First(items, ByPath(items[i].path.value)) == i
  {
    hide ItemOk;
    ItemOkShape(items[i]);
    assert forall j :: 0 <= j < |items| && j != i ==> Apart(items[i], items[j]);
    FirstIs(items, ByPath(items[i].path.value), i);
  }

  lemma FirstNamedIsOnly(items: seq<Item>, n: string)
    requires RecordsInv(items) && First(items, ByName(n)) < |items|
    ensures var i := First(items, ByName(n));
            && items[i].path.Some? && First(items, ByPath(items[i].path.value)) == i
            && Unnamed(items, [n]) == RemoveAt(items, i)
            && (forall it :: it in RemoveAt(items, i) <==> it in items && it != items[i])
  {
    hide RecordsInv, Matches;
    var i := First(items, ByName(n));
    OnlyOne(items, i);
    UnnamedOne(items, n, i);
    RemoveAtMembers(items, i);
  }

  lemma FirstNamed(items: seq<Item>, n: string)
    ensures First(items, ByName(n)) < |items| <==> exists it :: it in items && Matches(it, ByName(n))
    ensures First(items, ByName(n)) == |items| ==> Unnamed(items, [n]) == items
  {
    hide Matches;
    var i := First(items, ByName(n));
    if i < |items| {
      assert items[i] in items;
    } else {
      forall it | it in items ensures !Named(it, [n]) {
        var j :| 0 <= j < |items| && items[j] == it;
      }
      UnnamedAll(items, [n]);
    }
  }

  /** The j-th name ends the loop: its record, not dropped for an earlier name, has its file or cannot be deleted. */
  ghost predicate Stops(w: World, u: int, names: seq<string>, j: nat, io: Io)
    requires j < |names|
  {
    exists it :: it in Items(w, u) && EndsAt(w, u, names, j, io, it)
  }

  ghost predicate EndsAt(w: World, u: int, names: seq<string>, j: nat, io: Io, it: Item)
    requires j < |names|
  {
    Matches(it, ByName(names[j])) && !Named(it, names[..j]) && (Live(w, u, it) || Write(j) in io.failed)
  }

  /** The first name from the k-th on that ends the loop, or their number. */
  ghost function StopAt(w: World, u: int, names: seq<string>, k: nat, io: Io): (s: nat)
    requires k <= |names|
    ensures k <= s <= |names|
    decreases |names| - k
  {
    if k == |names| || Stops(w, u, names, k, io) then k else StopAt(w, u, names, k + 1, io)
  }

  lemma {:induction false} StopAtIs(w: World, u: int, names: seq<string>, k: nat, io: Io)
    requires k <= |names|
    ensures var s := StopAt(w, u, names, k, io);
            && (forall j :: k <= j < s ==> !Stops(w, u, names, j, io))
            && (s < |names| ==> Stops(w, u, names, s, io))
    decreases |names| - k
  {
    hide Stops;
    if k < |names| && !Stops(w, u, names, k, io) {
      StopAtIs(w, u, names, k + 1, io);
    }
  }

  /** The config without the records that carry one of the names. */
  function DropNames(w: World, u: int, names: seq<string>): World
  {
    if HasArray(ConfigOf(w, u)) then WithConfig(w, u, WithItems(ConfigOf(w, u), Unnamed(Items(w, u), names))) else w
  }

  lemma DropNone(w: World, u: int)
    ensures DropNames(w, u, []) == w
  {
    UnnamedAll(Items(w, u), []);
    if HasArray(ConfigOf(w, u)) {
      assert w == WithConfig(w, u, WithItems(ConfigOf(w, u), Items(w, u)));
    }
  }

  lemma DropOneMore(w: World, u: int, names: seq<string>, n: string)
    ensures DropNames(DropNames(w, u, names), u, [n]) == DropNames(w, u, names + [n])
    ensures forall it :: it in Items(DropNames(w, u, names), u) <==> it in Items(w, u) && !Named(it, names)
    ensures DropNames(w, u, names).files == w.files
  {
    hide Named, Unnamed;
    UnnamedTwice(Items(w, u), names, n);
    UnnamedMembers(Items(w, u), names);
  }

  lemma DropAbsent(w: World, u: int, n: string)
    requires HasArray(ConfigOf(w, u)) && First(Items(w, u), ByName(n)) == |Items(w, u)|
    ensures DropNames(w, u, [n]) == w
    ensures FontFileByName(w, u, n) == ""
    ensures forall it :: it in Items(w, u) ==> !Matches(it, ByName(n))
  {
    hide Matches;
    FirstNamed(Items(w, u), n);
    assert w == WithConfig(w, u, WithItems(ConfigOf(w, u), Items(w, u)));
  }

  lemma DropPresent(w: World, u: int, n: string, max: int)
    requires ConfigInv(ConfigOf(w, u), max)
    requires First(Items(w, u), ByName(n)) < |Items(w, u)|
    ensures var it := Items(w, u)[First(Items(w, u), ByName(n))];
            && it in Items(w, u) && Matches(it, ByName(n))
            && (forall x :: x in Items(w, u) && Matches(x, ByName(n)) ==> x == it)
            && FontFileByName(w, u, n) == OrElse(it.path, "") != ""
            && RealPath(u, OrElse(it.path, "")) == Place(u, it)
            && DeleteRecord(w, u, ByPath(OrElse(it.path, "")), true) == (true, DropNames(w, u, [n]))
    ensures ConfigInv(ConfigOf(DropNames(w, u, [n]), u), max)
  {
    hide RealPath, Resolve, Place, Matches;
    var items := Items(w, u);
    var i := First(items, ByName(n));
    FirstNamedIsOnly(items, n);
    InvRemoveAt(items, i);
    OnlyOne(items, i);
    PlaceOf(u, items[i]);
    hide RecordsInv;
    assert Items(DropNames(w, u, [n]), u) == RemoveAt(items, i);
  }

  /** One turn of the loop, k names in. */
  lemma OneTurn(w: World, u: int, names: seq<string>, k: nat, io: Io, max: int)
    requires k < |names| && ConfigInv(ConfigOf(DropNames(w, u, names[..k]), u), max)
    ensures var here, next := DropNames(w, u, names[..k]), DropNames(w, u, names[..k + 1]);
            && DropStale(here, u, names, k, io)
               == (if !Stops(w, u, names, k, io) then DropStale(next, u, names, k + 1, io)
                   else if exists it :: it in Items(w, u) && EndsAt(w, u, names, k, io, it) && Live(w, u, it)
                   then (ERR_INSTALLED_ALRADY, here)
                   else (ERR_INSTALL_FAIL, here))
            && (!Stops(w, u, names, k, io) ==> ConfigInv(ConfigOf(next, u), max))
  {
    hide RealPath, Place, RecordsInv, Matches, FontFileByName, DropNames, First, Named;
    var here, n := DropNames(w, u, names[..k]), names[k];
    assert names[..k + 1] == names[..k] + [n];
    DropOneMore(w, u, names[..k], n);
    if First(Items(here, u), ByName(n)) == |Items(here, u)| {
      DropAbsent(here, u, n);
    } else {
      DropPresent(here, u, n, max);
      var it := Items(here, u)[First(Items(here, u), ByName(n))];
      assert EndsAt(w, u, names, k, io, it) <==> Live(w, u, it) || Write(k) in io.failed;
    }
  }

  /**
    The stale loop: it drops the records of the names up to the first that ends it, and reports an
    installed font if that name's record has its file, a failed deletion otherwise.
   */
  lemma {:induction false} DropStaleFrom(w: World, u: int, names: seq<string>, k: nat, io: Io, max: int)
    requires k <= |names| && ConfigInv(ConfigOf(DropNames(w, u, names[..k]), u), max)
    ensures var s := StopAt(w, u, names, k, io);
            && DropStale(DropNames(w, u, names[..k]), u, names, k, io)
               == (if s == |names| then ERR_OK
                   else if exists it :: it in Items(w, u) && EndsAt(w, u, names, s, io, it) && Live(w, u, it)
                   then ERR_INSTALLED_ALRADY else ERR_INSTALL_FAIL,
                   DropNames(w, u, names[..s]))
            && ConfigInv(ConfigOf(DropNames(w, u, names[..s]), u), max)
    decreases |names| - k
  {
    hide ConfigInv, DropNames, EndsAt, Stops;
    if k < |names| {
      OneTurn(w, u, names, k, io, max);
      if !Stops(w, u, names, k, io) {
        DropStaleFrom(w, u, names, k + 1, io, max);
      }
    }
  }

  lemma DropStaleExact(w: World, u: int, names: seq<string>, io: Io, max: int)
    requires ConfigInv(ConfigOf(w, u), max)
    ensures var s := StopAt(w, u, names, 0, io);
            && DropStale(w, u, names, 0, io)
               == (if s == |names| then ERR_OK
                   else if exists it :: it in Items(w, u) && EndsAt(w, u, names, s, io, it) && Live(w, u, it)
                   then ERR_INSTALLED_ALRADY else ERR_INSTALL_FAIL,
                   DropNames(w, u, names[..s]))
            && ConfigInv(ConfigOf(DropNames(w, u, names[..s]), u), max)
  {
    hide ConfigInv, DropNames, EndsAt, StopAt, DropStale;
    DropNone(w, u);
    assert names[..0] == [];
    DropStaleFrom(w, u, names, 0, io, max);
  }

  /** Every record the loop drops has lost its file. */
  lemma {:induction false} DroppedAreStale(w: World, u: int, names: seq<string>, s: nat, io: Io, it: Item)
    requires s <= |names| && (forall j :: 0 <= j < s ==> !Stops(w, u, names, j, io))
    requires it in Items(w, u) && Named(it, names[..s])
    ensures !Live(w, u, it)
    decreases s
  {
    hide Matches, Live;
    var n :| n in names[..s] && Matches(it, ByName(n));
    var j :| 0 <= j < s && names[j] == n;
    if Named(it, names[..j]) {
      DroppedAreStale(w, u, names, j, io, it);
    } else {
      assert !Stops(w, u, names, j, io);
      assert !EndsAt(w, u, names, j, io, it);
    }
  }

  // ----- InstallFont -----

  /** Nothing lies at the place and no record leads there. */
  ghost predicate Fresh(w: World, u: int, path: string, place: Path)
  {
    && (forall p :: p in w.files ==> !(place <= p))
    && (forall it :: it in Items(w, u) ==> it.path != Some(path))
  }

  predicate CopyGoesThrough(content: Bytes, io: Io)
  {
    OpenTemp !in io.failed && Rename !in io.failed && CopySucceeds(content, io.replies)
  }

  ghost predicate NoWriteFault(io: Io)
  {
    forall k: nat :: Write(k) !in io.failed
  }

  /** The files agree everywhere but at one temp path. */
  predicate AgreeBut(f: Files, g: Files, temp: Path)
  {
    f - {temp} == g - {temp}
  }

  lemma CopyExact(files: Files, dir: Path, name: string, content: Bytes, io: Io)
    ensures var (ok, files') := CopyForInstall(files, dir, name, content, io);
            var temp, dest := dir + [TEMP_DIR, name], dir + [name];
            && (ok <==> CopyGoesThrough(content, io))
            && (ok ==> files' == (files - {temp})[dest := content])
            && (!ok ==> AgreeBut(files, files', temp))
  {
  }

  lemma RollbackExact(files: Files, temp: Path, dest: Path, content: Bytes)
    requires forall p :: p in files ==> !(dest <= p)
    requires temp != dest
    ensures AgreeBut(files, RemoveTree((files - {temp})[dest := content], dest), temp)
  {
    var back := RemoveTree((files - {temp})[dest := content], dest);
    forall p | p in files - {temp} ensures p in back && back[p] == files[p] {
      assert !(dest <= p);
    }
    assert (back - {temp}).Keys == (files - {temp}).Keys;
  }

  lemma InsertUnderLimitExact(w: World, u: int, path: string, names: seq<string>, max: int, writeOk: bool)
    requires HasArray(ConfigOf(w, u)) && |Items(w, u)| < max
    requires forall it :: it in Items(w, u) ==> it.path != Some(path)
    ensures InsertUnderLimit(w, u, path, names, max, writeOk)
            == if writeOk then (ERR_OK, WithConfig(w, u, WithItems(ConfigOf(w, u),
                                                   Items(w, u) + [ConstructItem(path, names)])))
               else (ERR_INSTALL_FAIL, w)
  {
    var items := Items(w, u);
    assert forall j :: 0 <= j < |items| ==> items[j] in items;
    FirstIs(items, ByPath(path), |items|);
  }

  /** A new record fits if nothing holds its path, its url, or one of its names. */
  lemma ItemFits(items: seq<Item>, x: Item)
    requires RecordsInv(items) && ItemOk(x) && x.names.Some?
    requires forall it :: it in items ==> it.path != x.path && !Named(it, x.names.value)
    requires x.srcPath.Some? ==> forall it :: it in items ==> it.srcPath != x.srcPath
    ensures RecordsInv(items + [x])
  {
    hide ItemOk, RecordsInv;
    forall it | it in items ensures Apart(it, x) && Apart(x, it) {
      assert forall n :: n in x.names.value && Matches(it, ByName(n)) ==> Named(it, x.names.value);
    }
    InvAppend(items, x);
  }

  lemma UserItemParts(name: string, names: seq<string>)
    requires IsFontName(name) && names != []
    ensures ItemOk(ConstructItem(UserFontPath(name), names))
  {
    hide UserFontPath, RealPath, Resolve;
    FontNameIsEntryName(name);
    UserFontPathResolves(0, name);
  }

  /** After a failed install: an orphan copy at its place if it could not be taken back, else no change outside temp. */
  predicate NothingButOrphan(f: Files, g: Files, temp: Path, dest: Path, content: Bytes, orphan: bool)
  {
    if orphan then g == (f - {temp})[dest := content] else AgreeBut(f, g, temp)
  }

  /** The part of InstallFont from the copy on, once the names are free. */
  lemma PlaceFontExact(w: World, env: Env, u: int, names: seq<string>, name: string, content: Bytes, io: Io)
    requires var max := GetMaxInstallNum(env);
             ConfigInv(ConfigOf(w, u), max) && |Items(w, u)| < max
    requires IsFontName(name) && names != []
    requires forall it :: it in Items(w, u) ==> !Named(it, names)
    requires Fresh(w, u, UserFontPath(name), InstallDir(u) + [name])
    ensures var (ret, w2) := PlaceFont(w, env, u, names, name, content, io);
            var temp, dest := InstallDir(u) + [TEMP_DIR, name], InstallDir(u) + [name];
            && (ret == ERR_OK <==> CopyGoesThrough(content, io) && Write(|names|) !in io.failed)
            && (ret == ERR_OK ==>
                  && w2.files == (w.files - {temp})[dest := content]
                  && w2.configs == WithConfig(w, u, WithItems(ConfigOf(w, u),
                                     Items(w, u) + [ConstructItem(UserFontPath(name), names)])).configs)
            && (ret != ERR_OK ==> w2.configs == w.configs
                                  && NothingButOrphan(w.files, w2.files, temp, dest, content,
                                                      CopyGoesThrough(content, io) && Remove(1) in io.failed))
            && ConfigInv(ConfigOf(w2, u), GetMaxInstallNum(env))
  {
    hide RecordsInv, UserFontPath, RemoveTree, AgreeBut, CopyForInstall, InstallDir, IsFontName, First, Named, ItemOk,
        CopyGoesThrough, InsertUnderLimit;
    var max := GetMaxInstallNum(env);
    CopyExact(w.files, InstallDir(u), name, content, io);
    var (copied, files) := CopyForInstall(w.files, InstallDir(u), name, content, io);
    var w1 := w.(files := files);
    InsertUnderLimitExact(w1, u, UserFontPath(name), names, max, Write(|names|) !in io.failed);
    UserItemParts(name, names);
    ItemFits(Items(w, u), ConstructItem(UserFontPath(name), names));
    var temp, dest := InstallDir(u) + [TEMP_DIR, name], InstallDir(u) + [name];
    assert |temp| == |dest| + 1;
    if copied {
      RollbackExact(w.files, temp, dest, content);
    }
  }

  /**
    Why the destination name must be new: an install whose copy and write go through always reports
    success and leaves its bytes at the place, but it adds a record exactly when none has that path.
   */
  lemma NewNameIsNeeded(w: World, env: Env, u: int, names: seq<string>, name: string, content: Bytes, io: Io)
    requires HasArray(ConfigOf(w, u)) && |Items(w, u)| < GetMaxInstallNum(env)
    requires CopyGoesThrough(content, io) && Write(|names|) !in io.failed
    ensures var (ret, w2) := PlaceFont(w, env, u, names, name, content, io);
            var dest := InstallDir(u) + [name];
            && ret == ERR_OK && dest in w2.files && w2.files[dest] == content
            && (|Items(w2, u)| == |Items(w, u)| + 1 <==>
                  forall it :: it in Items(w, u) ==> it.path != Some(UserFontPath(name)))
            && (Items(w2, u) == Items(w, u) <==> exists it :: it in Items(w, u) && it.path == Some(UserFontPath(name)))
  {
    hide UserFontPath, CopyForInstall, InstallDir, CopyGoesThrough;
    CopyExact(w.files, InstallDir(u), name, content, io);
    var items, key := Items(w, u), ByPath(UserFontPath(name));
    var i := First(items, key);
    if i < |items| {
      assert items[i] in items && items[i].path == Some(UserFontPath(name));
    } else {
      assert forall it :: it in items ==> !Matches(it, key);
    }
  }

  /** The install gets as far as a complete copy at its place. */
  ghost predicate CopyArrives(w: World, env: Env, u: int, src: Source, io: Io)
  {
    var names := FullNamesByFd(env, src.content);
    && InitDir !in io.failed
    && names != []
    && (forall j :: 0 <= j < |names| ==> !Stops(w, u, names, j, io))
    && |Unnamed(Items(w, u), names)| < GetMaxInstallNum(env)
    && CopyGoesThrough(src.content, io)
  }

  /** The install succeeds. */
  ghost predicate InstallGoesThrough(w: World, env: Env, u: int, src: Source, io: Io)
  {
    CopyArrives(w, env, u, src, io) && Write(|FullNamesByFd(env, src.content)|) !in io.failed
  }

  /** The record cannot be written, and the copy cannot be taken back. */
  ghost predicate CopyIsStranded(w: World, env: Env, u: int, src: Source, io: Io)
  {
    CopyArrives(w, env, u, src, io) && Write(|FullNamesByFd(env, src.content)|) in io.failed && Remove(1) in io.failed
  }

  /** The records an install drops as stale: those of the names before the one that ends the loop. */
  ghost function KeptByInstall(w: World, env: Env, u: int, src: Source, io: Io): seq<Item>
  {
    var names := FullNamesByFd(env, src.content);
    if InitDir in io.failed then Items(w, u) else Unnamed(Items(w, u), names[..StopAt(w, u, names, 0, io)])
  }

  lemma {:induction false} StopsSame(w: World, w1: World, u: int, names: seq<string>, k: nat, io: Io)
    requires k <= |names| && Items(w1, u) == Items(w, u) && w1.files == w.files
    ensures StopAt(w1, u, names, k, io) == StopAt(w, u, names, k, io)
    ensures forall j :: k <= j < |names| ==> (Stops(w1, u, names, j, io) <==> Stops(w, u, names, j, io))
    decreases |names| - k
  {
    hide Matches, Items, Place, Named;
    forall j, it | k <= j < |names| ensures EndsAt(w1, u, names, j, io, it) <==> EndsAt(w, u, names, j, io, it) {
      assert Live(w1, u, it) <==> Live(w, u, it);
    }
    hide EndsAt;
    if k < |names| {
      StopsSame(w, w1, u, names, k + 1, io);
    }
  }

  /**
    Install is all or nothing, under every fault. Success is exactly InstallGoesThrough, and then one
    record is added and the complete copy lies at its place. On failure no record is added, and no
    file outside temp/ differs, unless the copy is stranded: then exactly it is left behind.
   */
  lemma InstallFontExact(w: World, env: Env, u: int, src: Source, stamp: Stamp, io: Io)
    requires ConfigInv(ConfigOf(EnsureConfig(w, u), u), GetMaxInstallNum(env))
    requires Fresh(w, u, UserFontPath(DestName(stamp, src)), InstallDir(u) + [DestName(stamp, src)])
    ensures var (ret, w2) := InstallFont(w, env, u, src, stamp, io);
            var names, name := FullNamesByFd(env, src.content), DestName(stamp, src);
            var temp, dest := InstallDir(u) + [TEMP_DIR, name], InstallDir(u) + [name];
            && (ret == ERR_OK <==> InstallGoesThrough(w, env, u, src, io))
            && (ret == ERR_OK ==> |src.content| <= MAX_FONT_FILE_SIZE && names == env.tool(src.content))
            && Items(w2, u) == KeptByInstall(w, env, u, src, io)
                               + (if ret == ERR_OK then [ConstructItem(UserFontPath(name), names)] else [])
            && (if ret == ERR_OK then w2.files == (w.files - {temp})[dest := src.content]
                else NothingButOrphan(w.files, w2.files, temp, dest, src.content, CopyIsStranded(w, env, u, src, io)))
            && (InitDir in io.failed || ConfigInv(ConfigOf(w2, u), GetMaxInstallNum(env)))
  {
    hide RecordsInv, UserFontPath, AgreeBut, InstallDir, Matches, Place, PlaceFont, DropStale, DestName, CopyGoesThrough,
        Stops, EndsAt, Named;
    var max := GetMaxInstallNum(env);
    var names, name := FullNamesByFd(env, src.content), DestName(stamp, src);
    var w1 := EnsureConfig(w, u);
    assert Items(w1, u) == Items(w, u) && w1.files == w.files;
    AgreeItself(w.files, InstallDir(u) + [TEMP_DIR, name]);
    if InitDir !in io.failed {
      StopsSame(w, w1, u, names, 0, io);
      if names == [] {
        UnnamedNone(Items(w, u));
      } else {
        InstallFromNames(w1, env, u, src, stamp, io);
      }
    }
  }

  lemma UnnamedNone(items: seq<Item>)
    ensures Unnamed(items, []) == items
  {
    UnnamedAll(items, []);
  }

  /** The same from the stale loop on. */
  lemma InstallFromNames(w: World, env: Env, u: int, src: Source, stamp: Stamp, io: Io)
    requires ConfigInv(ConfigOf(w, u), GetMaxInstallNum(env))
    requires Fresh(w, u, UserFontPath(DestName(stamp, src)), InstallDir(u) + [DestName(stamp, src)])
    requires InitDir !in io.failed && FullNamesByFd(env, src.content) != []
    ensures var (ret, w2) := InstallFont(w, env, u, src, stamp, io);
            var names, name := FullNamesByFd(env, src.content), DestName(stamp, src);
            var temp, dest := InstallDir(u) + [TEMP_DIR, name], InstallDir(u) + [name];
            && (ret == ERR_OK <==> InstallGoesThrough(w, env, u, src, io))
            && (ret == ERR_OK ==> |src.content| <= MAX_FONT_FILE_SIZE && names == env.tool(src.content))
            && Items(w2, u) == KeptByInstall(w, env, u, src, io)
                               + (if ret == ERR_OK then [ConstructItem(UserFontPath(name), names)] else [])
            && (if ret == ERR_OK then w2.files == (w.files - {temp})[dest := src.content]
                else NothingButOrphan(w.files, w2.files, temp, dest, src.content, CopyIsStranded(w, env, u, src, io)))
            && ConfigInv(ConfigOf(w2, u), GetMaxInstallNum(env))
  {
    hide RecordsInv, UserFontPath, AgreeBut, InstallDir, Matches, Place, PlaceFont, DropStale, DestName, CopyGoesThrough,
        Stops, Named;
    var max := GetMaxInstallNum(env);
    var names, name := FullNamesByFd(env, src.content), DestName(stamp, src);
    var s := StopAt(w, u, names, 0, io);
    AgreeItself(w.files, InstallDir(u) + [TEMP_DIR, name]);
    DropStaleExact(w, u, names, io, max);
    UnnamedMembers(Items(w, u), names[..s]);
    StopAtIs(w, u, names, 0, io);
    assert s == |names| ==> names[..s] == names;
    assert s == |names| <==> forall j :: 0 <= j < |names| ==> !Stops(w, u, names, j, io);
    var w1 := DropNames(w, u, names[..s]);
    assert Items(w1, u) == Unnamed(Items(w, u), names[..s]) && w1.files == w.files;
    if s == |names| && |Items(w1, u)| < max {
      PlaceFontExact(w1, env, u, names, name, src.content, io);
    }
  }

  /** A successful install drops every record that carries one of its names, and all of them were stale. */
  lemma SuccessDropsNamed(w: World, env: Env, u: int, src: Source, io: Io)
    requires InstallGoesThrough(w, env, u, src, io)
    ensures var names := FullNamesByFd(env, src.content);
            && KeptByInstall(w, env, u, src, io) == Unnamed(Items(w, u), names)
            && forall it :: it in Items(w, u) && Named(it, names) ==> !Live(w, u, it)
  {
    hide Stops, Named, Unnamed, Live;
    var names := FullNamesByFd(env, src.content);
    StopAtIs(w, u, names, 0, io);
    assert StopAt(w, u, names, 0, io) == |names| && names[..|names|] == names;
    forall it | it in Items(w, u) && Named(it, names) ensures !Live(w, u, it) {
      DroppedAreStale(w, u, names, |names|, io, it);
    }
  }

  /** Whatever becomes of an install, only records it names go, and only stale ones. */
  lemma InstallDropsStale(w: World, env: Env, u: int, src: Source, io: Io)
    ensures var kept := KeptByInstall(w, env, u, src, io);
            && (forall it :: it in kept ==> it in Items(w, u))
            && (forall it :: it in Items(w, u) && it !in kept ==>
                  Named(it, FullNamesByFd(env, src.content)) && !Live(w, u, it))
  {
    hide Stops, Matches, Unnamed, Live;
    var names := FullNamesByFd(env, src.content);
    var s := StopAt(w, u, names, 0, io);
    UnnamedMembers(Items(w, u), names[..s]);
    StopAtIs(w, u, names, 0, io);
    forall it | it in Items(w, u) && Named(it, names[..s]) ensures Named(it, names) && !Live(w, u, it) {
      DroppedAreStale(w, u, names, s, io, it);
      assert forall n :: n in names[..s] ==> n in names;
    }
  }

  lemma AgreeItself(f: Files, temp: Path)
    ensures AgreeBut(f, f, temp)
  {
  }

  /** The first install on an empty store, when both the config write and the removal fail, strands its copy. */
  lemma FirstInstallStrands(env: Env, u: int, src: Source, stamp: Stamp, io: Io)
    requires var names := FullNamesByFd(env, src.content);
             names != [] && io.failed == {Write(|names|), Remove(1)} && CopySucceeds(src.content, io.replies)
    ensures var w := World(map[], map[]);
            var (ret, w2) := InstallFont(w, env, u, src, stamp, io);
            ret != ERR_OK && Items(w2, u) == [] && InstallDir(u) + [DestName(stamp, src)] in w2.files
  {
    var w, names := World(map[], map[]), FullNamesByFd(env, src.content);
    assert Items(w, u) == [] && Unnamed([], names) == [];
    assert CopyGoesThrough(src.content, io) && forall j :: 0 <= j < |names| ==> !Stops(w, u, names, j, io);
    assert CopyIsStranded(w, env, u, src, io);
    assert ConfigInv(ConfigOf(EnsureConfig(w, u), u), GetMaxInstallNum(env));
    hide InstallFont, ConfigInv, DestName, FullNamesByFd, Stops, InstallDir, CopyGoesThrough, CopySucceeds, UserFontPath,
        CopyArrives, KeptByInstall;
    InstallFontExact(w, env, u, src, stamp, io);
    InstallDropsStale(w, env, u, src, io);
    assert KeptByInstall(w, env, u, src, io) == [];
  }

  /** An input of that kind. */
  lemma StrandedCopyHappens(u: int) returns (env: Env, src: Source, stamp: Stamp, io: Io)
    ensures var (ret, w2) := InstallFont(World(map[], map[]), env, u, src, stamp, io);
            ret != ERR_OK && Items(w2, u) == [] && InstallDir(u) + [DestName(stamp, src)] in w2.files
  {
    env, src := Env(DEFAULT_MAX_INSTALL_NUM, c => ["F"]), Source("", [0]);
    stamp, io := "_", Io({Write(1), Remove(1)}, [Sent(1)]);
    assert FullNamesByFd(env, src.content) == ["F"] && CopySucceeds(src.content, io.replies);
    hide FullNamesByFd, CopySucceeds, InstallFont, InstallDir, DestName, Items;
    FirstInstallStrands(env, u, src, stamp, io);
  }
}
