/**
  The loops of DataMigrationManager, the states they pass through, and what a crash, a rerun and
  equal file names do to the fonts.
 */
module MigrationManager {
  import opened Paths
  import opened FileCopy
  import opened Migration

  /** The files once the first i sources are migrated and the next one has reached the first j users. */
  function Point(f0: Files, paths: seq<Path>, users: seq<int>, i: nat, j: nat): Files
    requires i <= |paths| && j <= |users|
  {
    var base := MigrateAll(f0, paths[..i], users);
    if i == |paths| then base else CopyToAll(base, paths[i], users[..j])
  }

  /** e is the state at point (i, j), or that state while the next copy is under way in its temp directory. */
  predicate AtPoint(f0: Files, paths: seq<Path>, users: seq<int>, i: nat, j: nat, e: Files)
  {
    && i <= |paths| && j <= |users|
    && (e == Point(f0, paths, users, i, j)
        || (i < |paths| && j < |users| && MidFile(Point(f0, paths, users, i, j), paths[i], users[j], e)))
  }

  predicate MidFile(f: Files, p: Path, u: int, e: Files)
  {
    Dest(u, p) !in f && e - {Temp(u, p)} == f - {Temp(u, p)}
  }

  ghost predicate Passed(f0: Files, paths: seq<Path>, users: seq<int>, e: Files)
  {
    exists i: nat, j: nat :: AtPoint(f0, paths, users, i, j, e)
  }

  class DataMigrationManager {
    var files: Files
    var userIds: seq<int>
    ghost var history: seq<Files>

    constructor (files: Files, userIds: seq<int>)
      ensures this.files == files && this.userIds == userIds && history == []
    {
      this.files, this.userIds, history := files, userIds, [];
    }

    /** The state a crash would leave after each change is recorded. */
    method CopyFileForDataMigration(srcPath: Path, userId: int, io: CopyIo) returns (ret: int)
      modifies this`files, this`history
      ensures ret == ERR_OK <==>
              Dest(userId, srcPath) in old(files)
              || (srcPath in old(files) && !io.unreadable && !io.noTemp && CopySucceeds(old(files)[srcPath], io.replies)
                  && !io.noRename)
      ensures ret == CopyCode(old(files), srcPath, userId, io)
      ensures ret == ERR_OK ==> files == CopyTo(old(files), srcPath, userId)
      ensures ret == ERR_OK ==> Dest(userId, srcPath) in files
      ensures ret == ERR_OPEN_SRC_FILE <==>
              Dest(userId, srcPath) !in old(files) && (srcPath !in old(files) || io.unreadable)
      ensures ret == ERR_OPEN_SRC_FILE ==> files == old(files)
      ensures ret == ERR_COPY_FILE ==>
              files == if io.noTemp then old(files)
                       else old(files)[Temp(userId, srcPath) := CopyContent(old(files)[srcPath], io.replies)]
      ensures ret == ERR_RENAME_FILE ==>
              files == if io.keepsTemp then old(files)[Temp(userId, srcPath) := old(files)[srcPath]]
                       else old(files) - {Temp(userId, srcPath)}
      ensures ret != ERR_OK ==> MidFile(old(files), srcPath, userId, files)
      ensures ret == ERR_OK && Dest(userId, srcPath) !in old(files) ==>
                && |history| == |old(history)| + 3
                && history[|old(history)| + 1] == old(files)[Temp(userId, srcPath) := old(files)[srcPath]]
      ensures old(history) <= history
      ensures files == if history == old(history) then old(files) else history[|history| - 1]
      ensures forall k :: |old(history)| <= k < |history| ==>
                history[k] == files || MidFile(old(files), srcPath, userId, history[k])
    {
      hide Dest, Temp;
      PlacesDiffer(srcPath, userId, srcPath, userId);
      var tempPath, desPath := Temp(userId, srcPath), Dest(userId, srcPath);
      if desPath in files {
        return ERR_OK;
      }
      if srcPath !in files || io.unreadable {
        return ERR_OPEN_SRC_FILE;
      }
      if io.noTemp {
        return ERR_COPY_FILE;
      }
      var source := files[srcPath];
      var ok, content := CopyFileByFd(source, io.replies);
      ghost var arrived: Bytes := *;
      history := history + [files[tempPath := arrived]];
      files := files[tempPath := content];
      history := history + [files];
      if !ok {
        return ERR_COPY_FILE;
      }
      if io.noRename {
        if !io.keepsTemp {
          files := files - {tempPath};
          assert files == old(files) - {tempPath};
        }
        history := history + [files];
        return ERR_RENAME_FILE;
      }
      files := (files - {tempPath})[desPath := files[tempPath]];
      history := history + [files];
      assert files == CopyTo(old(files), srcPath, userId);
      return ERR_OK;
    }

    /** `i` is the index of the file in the listing. */
    method StartOneFileCopyTask(path: Path, i: nat, io: MigrationIo) returns (ret: int)
      modifies this`files, this`history
      ensures ret == FileCode(old(files), path, userIds, i, 0, io)
      ensures ret == ERR_OK ==> files == MigrateOne(old(files), path, userIds)
      ensures ret != ERR_OK ==> exists j: nat :: AtPoint(old(files), [path], userIds, 0, j, files)
      ensures old(history) <= history
      ensures files == if history == old(history) then old(files) else history[|history| - 1]
      ensures forall k :: |old(history)| <= k < |history| ==>
                Passed(old(files), [path], userIds, history[k])
    {
      hide CopyTo, MidFile, CopyCode;
      var j := 0;
      PointOfOne(old(files), path, userIds, 0);
      while j < |userIds|
        invariant 0 <= j <= |userIds|
        invariant files == Point(old(files), [path], userIds, 0, j)
        invariant FileCode(old(files), path, userIds, i, 0, io) == FileCode(files, path, userIds, i, j, io)
        invariant old(history) <= history
        invariant files == if history == old(history) then old(files) else history[|history| - 1]
        invariant forall k :: |old(history)| <= k < |history| ==>
                    Passed(old(files), [path], userIds, history[k])
      {
        ghost var here, known := files, history;
        ret := CopyFileForDataMigration(path, userIds[j], io.copies(i, j));
        PointOfOne(old(files), path, userIds, j);
        if ret == ERR_OK {
          NextUser(old(files), path, userIds, j);
        }
        forall k | |known| <= k < |history| ensures Passed(old(files), [path], userIds, history[k]) {
          ghost var at := if history[k] == files && ret == ERR_OK then j + 1 else j;
          assert AtPoint(old(files), [path], userIds, 0, at, history[k]);
        }
        if ret != ERR_OK {
          assert AtPoint(old(files), [path], userIds, 0, j, files);
          return;
        }
        j := j + 1;
      }
      if path in files && io.keepsSource(i) {
        assert AtPoint(old(files), [path], userIds, 0, j, files);
        return ERR_REMOVE_SRC_FILE;
      }
      assert files - {path} == MigrateOne(old(files), path, userIds) by { PointOfOne(old(files), path, userIds, j); }
      files := files - {path};
      history := history + [files];
      assert AtPoint(old(files), [path], userIds, 1, 0, files) by { PointOfOne(old(files), path, userIds, 0); }
      return ERR_OK;
    }

    method StartDataMigration(paths: seq<Path>, io: MigrationIo) returns (ret: int)
      modifies this`files, this`history
      ensures ret == MigrationCode(old(files), paths, userIds, 0, io)
      ensures ret == ERR_OK ==> files == MigrateAll(old(files), paths, userIds)
      ensures Passed(old(files), paths, userIds, files)
      ensures old(history) <= history
      ensures files == if history == old(history) then old(files) else history[|history| - 1]
      ensures forall k :: |old(history)| <= k < |history| ==> Passed(old(files), paths, userIds, history[k])
    {
      hide AtPoint, MigrateOne, Passed, FileCode;
      var i := 0;
      StartPoint(old(files), paths, userIds);
      while i < |paths|
        invariant 0 <= i <= |paths|
        invariant files == MigrateAll(old(files), paths[..i], userIds)
        invariant MigrationCode(old(files), paths, userIds, 0, io) == MigrationCode(files, paths, userIds, i, io)
        invariant old(history) <= history
        invariant files == if history == old(history) then old(files) else history[|history| - 1]
        invariant forall k :: |old(history)| <= k < |history| ==> Passed(old(files), paths, userIds, history[k])
      {
        ghost var here, known := files, history;
        ret := StartOneFileCopyTask(paths[i], i, io);
        forall k | |known| <= k < |history| ensures Passed(old(files), paths, userIds, history[k]) {
          PassedInside(old(files), paths, userIds, i, history[k]);
        }
        if ret != ERR_OK {
          assert Passed(here, [paths[i]], userIds, files) by {
            var j: nat :| AtPoint(here, [paths[i]], userIds, 0, j, files);
            PassedIs(here, [paths[i]], userIds, 0, j, files);
          }
          PassedInside(old(files), paths, userIds, i, files);
          return;
        }
        NextFile(old(files), paths, userIds, i);
        i := i + 1;
      }
      assert paths[..i] == paths;
      EndPoint(old(files), paths, userIds);
      return ERR_OK;
    }
  }

  lemma PassedIs(f0: Files, paths: seq<Path>, users: seq<int>, i: nat, j: nat, e: Files)
    requires AtPoint(f0, paths, users, i, j, e)
    ensures Passed(f0, paths, users, e)
  {
    hide AtPoint;
  }

  lemma PointOfOne(f0: Files, path: Path, users: seq<int>, j: nat)
    requires j <= |users|
    ensures Point(f0, [path], users, 0, j) == CopyToAll(f0, path, users[..j])
    ensures Point(f0, [path], users, 1, 0) == MigrateOne(f0, path, users)
    ensures Point(f0, [path], users, 0, |users|) == CopyToAll(f0, path, users)
    ensures CopyToAll(f0, path, []) == f0
  {
    hide CopyTo;
    assert [path][..0] == [] && [path][..1] == [path] && users[..|users|] == users;
    assert MigrateAll(f0, [path], users) == MigrateOne(MigrateAll(f0, [], users), path, users) by {
      assert [path][..|[path]| - 1] == [];
    }
  }

  lemma NextUser(f0: Files, path: Path, users: seq<int>, j: nat)
    requires j < |users|
    ensures Point(f0, [path], users, 0, j + 1) == CopyTo(Point(f0, [path], users, 0, j), path, users[j])
  {
    hide CopyTo;
    PointOfOne(f0, path, users, j);
    PointOfOne(f0, path, users, j + 1);
    assert users[..j + 1][..j] == users[..j] && users[..j + 1][j] == users[j];
  }

  lemma NextFile(f0: Files, paths: seq<Path>, users: seq<int>, i: nat)
    requires i < |paths|
    ensures MigrateAll(f0, paths[..i + 1], users) == MigrateOne(MigrateAll(f0, paths[..i], users), paths[i], users)
  {
    hide MigrateOne;
    assert paths[..i + 1][..i] == paths[..i] && paths[..i + 1][i] == paths[i];
  }

  lemma StartPoint(f0: Files, paths: seq<Path>, users: seq<int>)
    ensures paths[..0] == [] && MigrateAll(f0, paths[..0], users) == f0
  {
  }

  lemma EndPoint(f0: Files, paths: seq<Path>, users: seq<int>)
    ensures Passed(f0, paths, users, MigrateAll(f0, paths, users))
  {
    assert paths[..|paths|] == paths;
    assert AtPoint(f0, paths, users, |paths|, 0, MigrateAll(f0, paths, users));
  }

  /** A state passed while one file is handled is passed by the whole migration. */
  lemma PassedInside(f0: Files, paths: seq<Path>, users: seq<int>, i: nat, e: Files)
    requires i < |paths| && Passed(MigrateAll(f0, paths[..i], users), [paths[i]], users, e)
    ensures Passed(f0, paths, users, e)
  {
    hide MigrateOne, MidFile, CopyToAll;
    var here := MigrateAll(f0, paths[..i], users);
    var m: nat, j: nat :| AtPoint(here, [paths[i]], users, m, j, e);
    PointOfOne(here, paths[i], users, j);
    if m == 0 {
      assert AtPoint(f0, paths, users, i, j, e);
    } else {
      NextFile(f0, paths, users, i);
      assert [paths[i]][..1] == [paths[i]];
      assert e == MigrateAll(f0, paths[..i + 1], users);
      NextStart(f0, paths, users, i + 1);
      assert AtPoint(f0, paths, users, i + 1, 0, e);
    }
  }

  lemma NextStart(f0: Files, paths: seq<Path>, users: seq<int>, i: nat)
    requires i <= |paths|
    ensures Point(f0, paths, users, i, 0) == MigrateAll(f0, paths[..i], users)
  {
    hide MigrateAll;
    assert users[..0] == [];
  }
}
