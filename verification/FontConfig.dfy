/**
  The disk, and FontConfig: each method reads its user's config file, scans the record
  list with a loop, edits it in place and writes the file back under one lock.
 */
module FontConfigs {
  import opened Wrappers
  import opened Paths
  import opened FileCopy
  import opened RecordStore
  import opened FontStore

  class Disk {
    var files: Files
    var configs: map<int, ConfigFile>

    constructor ()
      ensures files == map[] && configs == map[]
    {
      files, configs := map[], map[];
    }

    function State(): World
      reads this
    {
      World(files, configs)
    }

    /** CopyFile: open the target for writing, then run the sendfile loop. */
    method CopyFile(source: Bytes, target: Path, io: Io) returns (ok: bool)
      modifies this`files
      ensures ok <==> OpenTemp !in io.failed && CopySucceeds(source, io.replies)
      ensures files == if OpenTemp in io.failed then old(files)
                       else old(files)[target := CopyContent(source, io.replies)]
    {
      if OpenTemp in io.failed {
        return false;
      }
      var content;
      ok, content := CopyFileByFd(source, io.replies);
      files := files[target := content];
    }

    method RenameFile(src: Path, dest: Path, fails: bool) returns (ok: bool)
      modifies this`files
      ensures ok <==> src in old(files) && !fails
      ensures files == if ok then (old(files) - {src})[dest := old(files)[src]] else old(files)
    {
      if src !in files || fails {
        return false;
      }
      files := (files - {src})[dest := files[src]];
      return true;
    }

    method RemoveFile(path: Path, fails: bool) returns (ok: bool)
      modifies this`files
      ensures ok <==> path !in old(files) || !fails
      ensures files == if ok then old(files) - {path} else old(files)
    {
      if path !in files {
        assert files == files - {path};
        return true;
      }
      if fails {
        return false;
      }
      files := files - {path};
      return true;
    }

    method DeleteDir(dir: Path, fails: bool)
      modifies this`files
      ensures files == if fails then old(files) else RemoveTree(old(files), dir)
    {
      if !fails {
        files := RemoveTree(files, dir);
      }
    }
  }

  class FontConfig {
    const disk: Disk
    const user: int

    constructor (disk: Disk, user: int)
      ensures this.disk == disk && this.user == user
    {
      this.disk, this.user := disk, user;
    }

    function File(): ConfigFile
      reads disk
    {
      ConfigOf(disk.State(), user)
    }

    method WriteToFile(file: ConfigFile, writeOk: bool) returns (ok: bool)
      modifies disk`configs
      ensures ok == writeOk
      ensures disk.State() == if writeOk then WithConfig(old(disk.State()), user, file) else old(disk.State())
    {
      if writeOk {
        disk.configs := disk.configs[user := file];
      }
      return writeOk;
    }

    method InsertFontRecordIfUnderLimit(fontPath: string, fullNames: seq<string>, maxCount: int, writeOk: bool)
      returns (ret: int)
      modifies disk`configs
      ensures (ret, disk.State()) == InsertUnderLimit(old(disk.State()), user, fontPath, fullNames, maxCount, writeOk)
    {
      var file := File();
      if !HasArray(file) {
        return ERR_INSTALL_FAIL;
      }
      var items := file.fonts.items;
      var i := 0;
      while i < |items|
        invariant 0 <= i <= |items|
        invariant forall j :: 0 <= j < i ==> !Matches(items[j], ByPath(fontPath))
      {
        if items[i].path == Some(fontPath) {
          FirstIs(items, ByPath(fontPath), i);
          return ERR_OK;
        }
        i := i + 1;
      }
      FirstIs(items, ByPath(fontPath), i);
      if |items| >= maxCount {
        return ERR_MAX_FILE_COUNT;
      }
      var ok := WriteToFile(WithItems(file, items + [ConstructItem(fontPath, fullNames)]), writeOk);
      return if ok then ERR_OK else ERR_INSTALL_FAIL;
    }

    method DeleteFontRecord(fontPath: string, writeOk: bool) returns (ok: bool)
      modifies disk`configs
      ensures (ok, disk.State()) == DeleteRecord(old(disk.State()), user, ByPath(fontPath), writeOk)
    {
      var file := File();
      if !HasArray(file) {
        return false;
      }
      var items := file.fonts.items;
      var i := 0;
      while i < |items|
        invariant 0 <= i <= |items|
        invariant forall j :: 0 <= j < i ==> !Matches(items[j], ByPath(fontPath))
      {
        if items[i].path == Some(fontPath) {
          FirstIs(items, ByPath(fontPath), i);
          items := items[..i] + items[i + 1..];
          ok := WriteToFile(WithItems(file, items), writeOk);
          return;
        }
        i := i + 1;
      }
      FirstIs(items, ByPath(fontPath), i);
      return false;
    }

    method DeleteScopeFontRecordByUrl(srcPath: string, writeOk: bool) returns (ok: bool)
      modifies disk`configs
      ensures (ok, disk.State()) == DeleteRecord(old(disk.State()), user, ByUrl(srcPath), writeOk)
    {
      var file := File();
      if !HasArray(file) {
        return false;
      }
      var items := file.fonts.items;
      var i := 0;
      while i < |items|
        invariant 0 <= i <= |items|
        invariant forall j :: 0 <= j < i ==> !Matches(items[j], ByUrl(srcPath))
      {
        if items[i].srcPath == Some(srcPath) {
          FirstIs(items, ByUrl(srcPath), i);
          items := items[..i] + items[i + 1..];
          ok := WriteToFile(WithItems(file, items), writeOk);
          return;
        }
        i := i + 1;
      }
      FirstIs(items, ByUrl(srcPath), i);
      return false;
    }

    /** The backward loop that deletes while it counts down. */
    method DeleteScopeFontRecordByAppId(appIdentifier: string, writeOk: bool) returns (ok: bool)
      modifies disk`configs
      ensures (ok, disk.State()) == DeleteByApp(old(disk.State()), user, appIdentifier, writeOk)
    {
      hide Pending;
      var file := File();
      if !HasArray(file) {
        return false;
      }
      ghost var key := ByApp(appIdentifier);
      var changed := false;
      var items := file.fonts.items;
      ghost var before := items;
      PendingEnds(before, key);
      var i := |items| - 1;
      while i >= 0
        invariant -1 <= i < |before|
        invariant disk.State() == old(disk.State())
        invariant items == Pending(before, i + 1, key)
        invariant changed <==> First(before[i + 1..], key) < |before[i + 1..]|
      {
        PendingStep(before, i, key);
        if items[i].appId == Some(appIdentifier) {
          items := items[..i] + items[i + 1..];
          changed := true;
        }
        i := i - 1;
      }
      assert before[0..] == before;
      if changed {
        ok := WriteToFile(WithItems(file, items), writeOk);
      } else {
        ok := false;
      }
    }

    method InsertScopeFontRecord(record: Record, writeOk: bool) returns (ok: bool)
      modifies disk`configs
      ensures (ok, disk.State()) == InsertScope(old(disk.State()), user, record, writeOk)
    {
      var file := File();
      if !file.Parsed? || file.fonts.Missing? {
        return false;
      }
      var insertValue := ConstructScopeItem(record);
      if file.fonts.Array? {
        file := WithItems(file, file.fonts.items + [insertValue]);
      } else if file.fonts.Object? {
        file := Parsed(file.versions, Object(file.fonts.members + [insertValue]));
      }
      ok := WriteToFile(file, writeOk);
    }

    method GetInstalledFontsNum() returns (count: nat)
      ensures count == |ItemsOf(File())|
    {
      var file := File();
      return if HasArray(file) then |file.fonts.items| else 0;
    }

    method GetFontFileByName(fullName: string) returns (path: string)
      ensures path == FontFileByName(disk.State(), user, fullName)
    {
      var items := ItemsOf(File());
      var i := 0;
      while i < |items|
        invariant 0 <= i <= |items|
        invariant forall j :: 0 <= j < i ==> !Matches(items[j], ByName(fullName))
      {
        if items[i].names.Some? && fullName in items[i].names.value {
          FirstIs(items, ByName(fullName), i);
          return if items[i].path.Some? then items[i].path.value else "";
        }
        i := i + 1;
      }
      FirstIs(items, ByName(fullName), i);
      return "";
    }

    method GetFontRecordByName(fullName: string) returns (record: Option<Record>)
      ensures record == FindRecord(disk.State(), user, ByName(fullName))
    {
      var items := ItemsOf(File());
      var i := 0;
      while i < |items|
        invariant 0 <= i <= |items|
        invariant forall j :: 0 <= j < i ==> !Matches(items[j], ByName(fullName))
      {
        if items[i].names.Some? && fullName in items[i].names.value {
          FirstIs(items, ByName(fullName), i);
          return Some(ParseScopeRecord(items[i]));
        }
        i := i + 1;
      }
      FirstIs(items, ByName(fullName), i);
      return None;
    }

    method GetFontRecordByUrl(srcPath: string) returns (record: Option<Record>)
      ensures record == FindRecord(disk.State(), user, ByUrl(srcPath))
    {
      var items := ItemsOf(File());
      var i := 0;
      while i < |items|
        invariant 0 <= i <= |items|
        invariant forall j :: 0 <= j < i ==> !Matches(items[j], ByUrl(srcPath))
      {
        if items[i].srcPath == Some(srcPath) {
          FirstIs(items, ByUrl(srcPath), i);
          return Some(ParseScopeRecord(items[i]));
        }
        i := i + 1;
      }
      FirstIs(items, ByUrl(srcPath), i);
      return None;
    }

    /** The three record listings differ only in the member they test. */
    method GetRecords(key: Key) returns (records: seq<Record>)
      requires key.ByApp? || key.AnyScope? || key.AppScope?
      ensures records == ParseAll(Select(ItemsOf(File()), key))
    {
      var items := ItemsOf(File());
      records := [];
      var i := 0;
      while i < |items|
        invariant 0 <= i <= |items|
        invariant records == ParseAll(Select(items[..i], key))
      {
        SelectAppend(items[..i], items[i], key);
        assert items[..i + 1] == items[..i] + [items[i]];
        ParseAllAppend(Select(items[..i], key), items[i]);
        var wanted := || (key.ByApp? && items[i].appId == Some(key.s))
                      || (key.AnyScope? && items[i].scope.Some? && items[i].scope.value >= 0)
                      || (key.AppScope? && items[i].scope == Some(FONT_SCOPE_APP));
        if wanted {
          records := records + [ParseScopeRecord(items[i])];
        }
        i := i + 1;
      }
      assert items[..i] == items;
    }

    /** One turn of RefreshFullNames: read the names again from the file of the record. */
    method RefreshOne(it: Item, tool: FontTool) returns (r: Item)
      ensures r == RefreshItem(it, user, disk.files, tool)
    {
      hide ConfigSandBoxPathToRealPath, GetFullNamesByPath, ConfigPath;
      r := it;
      if it.path.Some? {
        var realPath := ConfigSandBoxPathToRealPath(ConfigPath(user), it.path.value);
        r := it.(names := Some(GetFullNamesByPath(disk.files, tool, realPath)));
      }
    }

    method RefreshFullNames(items: seq<Item>, tool: FontTool) returns (renamed: seq<Item>)
      ensures renamed == RefreshItems(items, user, disk.files, tool)
    {
      hide RefreshItem;
      renamed := items;
      var i := 0;
      while i < |items|
        invariant 0 <= i <= |items| == |renamed|
        invariant forall j :: 0 <= j < i ==> renamed[j] == RefreshItem(items[j], user, disk.files, tool)
        invariant forall j :: i <= j < |items| ==> renamed[j] == items[j]
      {
        var item := RefreshOne(renamed[i], tool);
        renamed := renamed[i := item];
        i := i + 1;
      }
    }

    method CheckAndUpdateFontRecord(env: Env, writeOk: bool) returns (ok: bool)
      modifies disk`configs
      ensures (ok, disk.State()) == CheckAndUpdate(old(disk.State()), user, env, writeOk)
    {
      var file := File();
      if !file.Parsed? {
        return false;
      }
      if file.versions != [] {
        if file.versions[0] == Text(FONT_CONFIG_VERSION_7) {
          return true;
        }
      }
      var fonts := file.fonts;
      if fonts.Array? {
        var renamed := RefreshFullNames(fonts.items, env.tool);
        fonts := Array(renamed);
      }
      var versions := if file.versions != [] && file.versions[0] == Number(VERSION)
                      then file.versions[0 := Text(FONT_CONFIG_VERSION_7)]
                      else file.versions + [Text(FONT_CONFIG_VERSION_7)];
      ok := WriteToFile(Parsed(versions, fonts), writeOk);
    }
  }

  /** A list whose part from i on has been filtered already. */
  ghost function Pending(before: seq<Item>, i: nat, key: Key): seq<Item>
    requires i <= |before|
  {
    before[..i] + Without(before[i..], key)
  }

  lemma PendingEnds(before: seq<Item>, key: Key)
    ensures Pending(before, |before|, key) == before
    ensures Pending(before, 0, key) == Without(before, key)
    ensures before[|before|..] == []
  {
    assert before[0..] == before && before[..|before|] == before;
  }

  /** One turn of a backward deletion loop. */
  lemma PendingStep(before: seq<Item>, i: nat, key: Key)
    requires i < |before|
    ensures var items := Pending(before, i + 1, key);
            && i < |items| && items[i] == before[i]
            && Pending(before, i, key) == if Matches(before[i], key) then items[..i] + items[i + 1..] else items
    ensures var rest, more := before[i + 1..], before[i..];
            First(more, key) < |more| <==> Matches(before[i], key) || First(rest, key) < |rest|
  {
    var items, rest := Pending(before, i + 1, key), before[i + 1..];
    assert before[i..][0] == before[i] && before[i..][1..] == rest;
    var kept := Without(rest, key);
    assert before[..i + 1] == before[..i] + [before[i]];
    assert items[i + 1..] == kept && items[..i] == before[..i];
    assert items == before[..i] + ([before[i]] + kept);
    assert [] + kept == kept;
  }

  function ParseAll(items: seq<Item>): (records: seq<Record>)
    ensures |records| == |items|
    ensures forall i :: 0 <= i < |items| ==> records[i] == ParseScopeRecord(items[i])
  {
    if items == [] then [] else [ParseScopeRecord(items[0])] + ParseAll(items[1..])
  }

  lemma ParseAllAppend(items: seq<Item>, x: Item)
    ensures ParseAll(items + [x]) == ParseAll(items) + [ParseScopeRecord(x)]
    ensures ParseAll(items + []) == ParseAll(items)
  {
    assert items + [] == items;
  }
}
