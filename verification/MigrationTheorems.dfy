/**
  Migration as a whole: crash-safe at every step, resumable to the same final files, and exact
  about what equal file names lose.
 */
module MigrationTheorems {
  import opened Paths
  import opened FileCopy
  import opened Migration
  import opened MigrationManager

  predicate Distinct<T(==)>(s: seq<T>)
  {
    forall i, j :: 0 <= i < j < |s| ==> s[i] != s[j]
  }

  function SetOf<T>(s: seq<T>): set<T>
  {
    set x | x in s
  }

  lemma CopiesAll(f0: Files, f: Files, sources: set<Path>, done: Pairs, removed: set<Path>, p: Path, users: seq<int>)
    requires GoodListing(f0, sources) && p in sources && p !in removed && removed <= sources
    requires forall q: Path, v: int :: (q, v) in done ==> q in sources
    requires Partial(f0, f, done, removed)
    ensures Partial(f0, CopyToAll(f, p, users), done + AllPairs({p}, SetOf(users)), removed)
    decreases |users|
  {
    hide Partial, GoodListing, CopyTo;
    if users == [] {
      assert AllPairs({p}, SetOf(users)) == {};
      assert done + {} == done;
    } else {
      var init, u := users[..|users| - 1], users[|users| - 1];
      assert users == init + [u];
      CopiesAll(f0, f, sources, done, removed, p, init);
      var more := done + AllPairs({p}, SetOf(init));
      CopyStep(f0, sources, CopyToAll(f, p, init), more, removed, p, u);
      assert SetOf(users) == SetOf(init) + {u};
      assert done + AllPairs({p}, SetOf(users)) == more + {(p, u)};
    }
  }

  lemma MigratesOne(f0: Files, f: Files, sources: set<Path>, done: Pairs, removed: set<Path>, p: Path, users: seq<int>)
    requires GoodListing(f0, sources) && p in sources && p !in removed && removed <= sources
    requires forall q: Path, v: int :: (q, v) in done ==> q in sources
    requires Partial(f0, f, done, removed)
    ensures Partial(f0, MigrateOne(f, p, users), done + AllPairs({p}, SetOf(users)), removed + {p})
  {
    hide Partial, GoodListing, CopyToAll;
    CopiesAll(f0, f, sources, done, removed, p, users);
    Listed(f0, sources, p);
    RemoveStep(f0, CopyToAll(f, p, users), done + AllPairs({p}, SetOf(users)), removed, p);
  }

  /** After the first sources have been migrated, exactly their pairs are done and they are gone. */
  lemma {:induction false} MigratesAll(f0: Files, sources: set<Path>, paths: seq<Path>, users: seq<int>)
    requires GoodListing(f0, sources) && Distinct(paths) && SetOf(paths) <= sources
    ensures Partial(f0, MigrateAll(f0, paths, users), AllPairs(SetOf(paths), SetOf(users)), SetOf(paths))
    decreases |paths|
  {
    hide Partial, GoodListing, MigrateOne;
    if paths == [] {
      NothingDone(f0);
      assert SetOf(paths) == {} && AllPairs(SetOf(paths), SetOf(users)) == {};
    } else {
      var init, p := paths[..|paths| - 1], paths[|paths| - 1];
      assert paths == init + [p] && p in SetOf(paths);
      assert p !in init;
      assert SetOf(paths) == SetOf(init) + {p};
      MigratesAll(f0, sources, init, users);
      var done := AllPairs(SetOf(init), SetOf(users));
      MigratesOne(f0, MigrateAll(f0, init, users), sources, done, SetOf(init), p, users);
      assert AllPairs(SetOf(paths), SetOf(users)) == done + AllPairs({p}, SetOf(users));
    }
  }

  lemma PointIsPartial(f0: Files, paths: seq<Path>, users: seq<int>, i: nat, j: nat)
    returns (done: Pairs, removed: set<Path>)
    requires GoodListing(f0, SetOf(paths)) && Distinct(paths) && i <= |paths| && j <= |users|
    ensures Partial(f0, Point(f0, paths, users, i, j), done, removed)
    ensures done <= AllPairs(SetOf(paths), SetOf(users)) && removed <= SetOf(paths)
    ensures AllPairs(removed, SetOf(users)) <= done
    ensures i < |paths| ==> paths[i] !in removed
  {
    hide Partial, GoodListing, CopyToAll;
    var sources, first := SetOf(paths), paths[..i];
    assert forall p :: p in first ==> p in paths;
    MigratesAll(f0, sources, first, users);
    done, removed := AllPairs(SetOf(first), SetOf(users)), SetOf(first);
    if i < |paths| {
      assert paths[i] in sources;
      assert paths[i] !in first;
      assert forall u :: u in users[..j] ==> u in users;
      CopiesAll(f0, MigrateAll(f0, first, users), sources, done, removed, paths[i], users[..j]);
      done := done + AllPairs({paths[i]}, SetOf(users[..j]));
    }
  }

  /** Whatever state the migration passes through, between any two changes, is a crash state. */
  lemma PassedIsCrashState(f0: Files, paths: seq<Path>, users: seq<int>, g: Files)
    requires GoodListing(f0, SetOf(paths)) && Distinct(paths) && Passed(f0, paths, users, g)
    ensures CrashState(f0, g, SetOf(paths), SetOf(users))
  {
    hide Partial, GoodListing, Point, Dest, Temp;
    var i: nat, j: nat :| AtPoint(f0, paths, users, i, j, g);
    var done, removed := PointIsPartial(f0, paths, users, i, j);
    var f := Point(f0, paths, users, i, j);
    var sources := SetOf(paths);
    if g != f {
      var p, u := paths[i], users[j];
      assert p in sources && u in SetOf(users);
      PartialFacts(f0, f, done, removed, sources, SetOf(users), p, u);
    }
    assert ComesFrom(f0, f, done, removed, g, sources, SetOf(users));
  }

  /**
    Crash safety: at every step of a migration each source is still there or every listed user has
    a file of its name, and every new file in a user's directory is a complete copy.
   */
  lemma MigrationIsCrashSafe(f0: Files, paths: seq<Path>, users: seq<int>, g: Files)
    requires GoodListing(f0, SetOf(paths)) && Distinct(paths) && Passed(f0, paths, users, g)
    ensures Safe(f0, g, SetOf(paths), SetOf(users))
  {
    hide GoodListing, Passed, CrashState, Safe;
    PassedIsCrashState(f0, paths, users, g);
    CrashStateIsSafe(f0, g, SetOf(paths), SetOf(users));
  }

  /**
    Resumption: from any state a migration passed through, a migration of the sources that are left,
    listed in any order, ends with exactly the files of the uninterrupted migration.
   */
  lemma RerunReachesSameFiles(f0: Files, paths: seq<Path>, users: seq<int>, g: Files, again: seq<Path>)
    requires GoodListing(f0, SetOf(paths)) && Distinct(paths) && Passed(f0, paths, users, g)
    requires Distinct(again) && SetOf(again) == Remaining(g, SetOf(paths))
    ensures MigrateAll(g, again, users) == MigrateAll(f0, paths, users)
  {
    hide GoodListing, Passed, CrashState, Partial, MigrateAll;
    var sources, all := SetOf(paths), SetOf(users);
    PassedIsCrashState(f0, paths, users, g);
    StillListed(f0, g, sources);
    MigratesAll(g, SetOf(again), again, users);
    var h := MigrateAll(g, again, users);
    RerunCompletes(f0, g, h, sources, all);
    MigratesAll(f0, sources, paths, users);
    FinalStateIsUnique(f0, h, MigrateAll(f0, paths, users), AllPairs(sources, all), sources);
  }

  // ----- When a migration succeeds -----

  /** User u has a file of p's name already, or each step of the copy works. */
  predicate PairWorks(f0: Files, p: Path, u: int, io: CopyIo)
    requires p in f0
  {
    || Dest(u, p) in f0
    || (!io.unreadable && !io.noTemp && CopySucceeds(f0[p], io.replies) && !io.noRename)
  }

  /** The copies to the users from the j-th to the one before m all work. */
  predicate PairsWork(f0: Files, p: Path, users: seq<int>, i: nat, j: nat, m: nat,
                                           io: MigrationIo)
    requires p in f0 && m <= |users|
  {
    forall k: nat :: j <= k < m ==> PairWorks(f0, p, users[k], io.copies(i, k))
  }

  predicate FileWorks(f0: Files, p: Path, users: seq<int>, i: nat, io: MigrationIo)
    requires p in f0
  {
    PairsWork(f0, p, users, i, 0, |users|, io) && !io.keepsSource(i)
  }

  /** While a migration is under way, the next pair is as it was at the start. */
  lemma NextPairAsBefore(f0: Files, paths: seq<Path>, users: seq<int>, i: nat, j: nat)
    requires GoodListing(f0, SetOf(paths)) && Distinct(paths) && Distinct(users) && i < |paths| && j <= |users|
    ensures var f, p := Point(f0, paths, users, i, j), paths[i];
            p in f && p in f0 && f[p] == f0[p] && (j < |users| ==> (Dest(users[j], p) in f <==> Dest(users[j], p) in f0))
  {
    hide Partial, GoodListing, Dest, Temp, MigrateAll, CopyToAll;
    var sources, first, p := SetOf(paths), paths[..i], paths[i];
    assert p in sources && p !in first && forall q :: q in first ==> q in paths;
    MigratesAll(f0, sources, first, users);
    CopiesAll(f0, MigrateAll(f0, first, users), sources, AllPairs(SetOf(first), SetOf(users)), SetOf(first), p, users[..j]);
    var done := AllPairs(SetOf(first), SetOf(users)) + AllPairs({p}, SetOf(users[..j]));
    assert forall u :: u in users[..j] ==> u in users;
    Listed(f0, sources, p);
    var u := if j < |users| then users[j] else 0;
    PartialFacts(f0, Point(f0, paths, users, i, j), done, SetOf(first), sources, SetOf(users), p, u);
    assert j < |users| ==> u !in users[..j];
  }

  /** The code of the i-th file from the j-th user on, in terms of the files at the start. */
  lemma {:induction false} FileCodeExact(f0: Files, paths: seq<Path>, users: seq<int>, i: nat, j: nat, m: nat,
                                           io: MigrationIo)
    requires GoodListing(f0, SetOf(paths)) && Distinct(paths) && Distinct(users) && i < |paths| && j <= m <= |users|
    requires paths[i] in f0 && PairsWork(f0, paths[i], users, i, j, m, io)
    requires m < |users| ==> !PairWorks(f0, paths[i], users[m], io.copies(i, m))
    ensures FileCode(Point(f0, paths, users, i, j), paths[i], users, i, j, io)
            == if m < |users| then PairCode(f0[paths[i]], io.copies(i, m))
               else if io.keepsSource(i) then ERR_REMOVE_SRC_FILE else ERR_OK
    ensures m < |users| ==> PairCode(f0[paths[i]], io.copies(i, m)) != ERR_OK
    decreases |users| - j
  {
    hide GoodListing, Dest, Point, CopyTo;
    NextPairAsBefore(f0, paths, users, i, j);
    if j < m {
      assert PairWorks(f0, paths[i], users[j], io.copies(i, j));
      PointStep(f0, paths, users, i, j);
      FileCodeExact(f0, paths, users, i, j + 1, m, io);
    }
  }

  lemma PointStep(f0: Files, paths: seq<Path>, users: seq<int>, i: nat, j: nat)
    requires i < |paths| && j < |users|
    ensures Point(f0, paths, users, i, j + 1) == CopyTo(Point(f0, paths, users, i, j), paths[i], users[j])
  {
    hide CopyTo;
    assert users[..j + 1][..j] == users[..j] && users[..j + 1][j] == users[j];
  }

  /** Some first user's copy fails, unless all work. */
  lemma {:induction false} FirstFailing(f0: Files, p: Path, users: seq<int>, i: nat, j: nat, io: MigrationIo)
    returns (m: nat)
    requires p in f0 && j <= |users|
    ensures j <= m <= |users| && PairsWork(f0, p, users, i, j, m, io)
    ensures m < |users| ==> !PairWorks(f0, p, users[m], io.copies(i, m))
    decreases |users| - j
  {
    hide PairWorks;
    if j == |users| || !PairWorks(f0, p, users[j], io.copies(i, j)) {
      m := j;
    } else {
      m := FirstFailing(f0, p, users, i, j + 1, io);
    }
  }

  lemma FileOkExact(f0: Files, paths: seq<Path>, users: seq<int>, i: nat, io: MigrationIo)
    requires GoodListing(f0, SetOf(paths)) && Distinct(paths) && Distinct(users) && i < |paths| && paths[i] in f0
    ensures FileCode(Point(f0, paths, users, i, 0), paths[i], users, i, 0, io) == ERR_OK
            <==> FileWorks(f0, paths[i], users, i, io)
  {
    hide GoodListing, FileCode, Point, PairWorks;
    var m := FirstFailing(f0, paths[i], users, i, 0, io);
    FileCodeExact(f0, paths, users, i, 0, m, io);
  }

  /** Every file from the i-th to the one before n works. */
  ghost predicate FilesWork(f0: Files, paths: seq<Path>, users: seq<int>, i: nat, n: nat,
                                               io: MigrationIo)
    requires n <= |paths| && forall p :: p in paths ==> p in f0
  {
    forall k: nat :: i <= k < n ==> FileWorks(f0, paths[k], users, k, io)
  }

  lemma AllListed(f0: Files, paths: seq<Path>)
    requires GoodListing(f0, SetOf(paths))
    ensures forall p :: p in paths ==> p in f0
  {
    hide BaseName;
    assert forall p :: p in paths ==> p in SetOf(paths);
  }

  lemma {:induction false} MigrationCodeFrom(f0: Files, paths: seq<Path>, users: seq<int>, i: nat, n: nat,
                                               io: MigrationIo)
    requires GoodListing(f0, SetOf(paths)) && Distinct(paths) && Distinct(users) && i <= n <= |paths|
    requires (forall p :: p in paths ==> p in f0) && FilesWork(f0, paths, users, i, n, io)
    requires n < |paths| ==> !FileWorks(f0, paths[n], users, n, io)
    ensures MigrationCode(MigrateAll(f0, paths[..i], users), paths, users, i, io)
            == if n < |paths| then FileCode(Point(f0, paths, users, n, 0), paths[n], users, n, 0, io) else ERR_OK
    decreases |paths| - i
  {
    hide GoodListing, FileCode, Point, MigrateAll, MigrateOne, FileWorks;
    if i < |paths| {
      NextStart(f0, paths, users, i);
      FileOkExact(f0, paths, users, i, io);
      if i < n {
        NextFile(f0, paths, users, i);
        MigrationCodeFrom(f0, paths, users, i + 1, n, io);
      }
    }
  }

  lemma {:induction false} FirstFailingFile(f0: Files, paths: seq<Path>, users: seq<int>, i: nat, io: MigrationIo)
    returns (n: nat)
    requires i <= |paths| && forall p :: p in paths ==> p in f0
    ensures i <= n <= |paths| && FilesWork(f0, paths, users, i, n, io)
    ensures n < |paths| ==> !FileWorks(f0, paths[n], users, n, io)
    decreases |paths| - i
  {
    hide FileWorks;
    if i == |paths| || !FileWorks(f0, paths[i], users, i, io) {
      n := i;
    } else {
      n := FirstFailingFile(f0, paths, users, i + 1, io);
    }
  }

  /** A migration returns ERR_OK exactly when each copy works or is not needed, and each source can be removed. */
  lemma MigrationSucceedsExactly(f0: Files, paths: seq<Path>, users: seq<int>, io: MigrationIo)
    requires GoodListing(f0, SetOf(paths)) && Distinct(paths) && Distinct(users)
    requires forall p :: p in paths ==> p in f0
    ensures MigrationCode(f0, paths, users, 0, io) == ERR_OK <==>
            forall i: nat :: i < |paths| ==>
              && !io.keepsSource(i)
              && forall j: nat :: j < |users| ==>
                   || Dest(users[j], paths[i]) in f0
                   || var c := io.copies(i, j);
                      !c.unreadable && !c.noTemp && CopySucceeds(f0[paths[i]], c.replies) && !c.noRename
  {
    hide GoodListing, FileCode, MigrationCode, MigrateOne, Point, Dest, CopySucceeds;
    var n := FirstFailingFile(f0, paths, users, 0, io);
    StartPoint(f0, paths, users);
    MigrationCodeFrom(f0, paths, users, 0, n, io);
    if n < |paths| {
      NextStart(f0, paths, users, n);
      FileOkExact(f0, paths, users, n, io);
    }
    assert n == |paths| <==> FilesWork(f0, paths, users, 0, |paths|, io);
    forall i: nat | i < |paths|
      ensures FileWorks(f0, paths[i], users, i, io) <==>
              !io.keepsSource(i) && forall j: nat :: j < |users| ==> PairWorks(f0, paths[i], users[j], io.copies(i, j))
    {
    }
  }

  /** Otherwise the code is that of the first step that fails, by file and then by user. */
  lemma FirstFailureDecides(f0: Files, paths: seq<Path>, users: seq<int>, i: nat, j: nat, io: MigrationIo)
    requires GoodListing(f0, SetOf(paths)) && Distinct(paths) && Distinct(users)
    requires forall p :: p in paths ==> p in f0
    requires i < |paths| && j <= |users| && FilesWork(f0, paths, users, 0, i, io)
    requires PairsWork(f0, paths[i], users, i, 0, j, io)
    requires if j < |users| then !PairWorks(f0, paths[i], users[j], io.copies(i, j)) else io.keepsSource(i)
    ensures var code, c := MigrationCode(f0, paths, users, 0, io), io.copies(i, j);
            code == if j == |users| then ERR_REMOVE_SRC_FILE
                    else if c.unreadable then ERR_OPEN_SRC_FILE
                    else if c.noTemp || !CopySucceeds(f0[paths[i]], c.replies) then ERR_COPY_FILE
                    else ERR_RENAME_FILE
  {
    assert !FileWorks(f0, paths[i], users, i, io);
    hide GoodListing, FileCode, MigrationCode, MigrateOne, Point, Dest, CopySucceeds, FileWorks;
    StartPoint(f0, paths, users);
    MigrationCodeFrom(f0, paths, users, 0, i, io);
    FileCodeExact(f0, paths, users, i, 0, j, io);
  }

  /** A copy keeps the file name of its source, in the user's directory and in its temp directory. */
  lemma NameKept(u: int, dir: Path, name: string)
    ensures Dest(u, dir + [name]) == InstallDir(u) + [name]
    ensures Temp(u, dir + [name]) == InstallDir(u) + ["temp", name]
  {
  }

  lemma ListedIsPublic(f0: Files, sources: set<Path>, p: Path)
    requires GoodListing(f0, sources) && p in sources
    ensures p != []
  {
  }

  lemma FaultlessPair(f0: Files, paths: seq<Path>, users: seq<int>, p: Path, u: int)
    requires GoodListing(f0, SetOf(paths)) && Distinct(paths) && Distinct(users)
    requires p in paths && u in users && p in f0 && p != []
    ensures var g, dest := MigrateAll(f0, paths, users), InstallDir(u) + [p[|p| - 1]];
            p !in g && dest in g && g[dest] == if dest in f0 then f0[dest] else f0[p]
  {
    hide GoodListing, MigrateAll, Partial;
    ListedIsPublic(f0, SetOf(paths), p);
    NameKept(u, p[..|p| - 1], p[|p| - 1]);
    assert p[..|p| - 1] + [p[|p| - 1]] == p;
    hide Dest;
    MigratesAll(f0, SetOf(paths), paths, users);
    PartialFacts(f0, MigrateAll(f0, paths, users), AllPairs(SetOf(paths), SetOf(users)), SetOf(paths), SetOf(paths),
                 SetOf(users), p, u);
  }

  /** Without a fault, every listed font reaches every user under its name, no source is left, and the code is ERR_OK. */
  lemma FaultlessMigration(f0: Files, paths: seq<Path>, users: seq<int>, io: MigrationIo, p: Path, u: int)
    requires GoodListing(f0, SetOf(paths)) && Distinct(paths) && Distinct(users)
    requires forall p :: p in paths ==> p in f0
    requires forall i: nat, j: nat :: i < |paths| && j < |users| ==>
               var c := io.copies(i, j);
               !c.unreadable && !c.noTemp && CopySucceeds(f0[paths[i]], c.replies) && !c.noRename
    requires forall i: nat :: i < |paths| ==> !io.keepsSource(i)
    ensures MigrationCode(f0, paths, users, 0, io) == ERR_OK
    ensures p in paths && u in users && p != [] ==>
              var g, dest := MigrateAll(f0, paths, users), InstallDir(u) + [p[|p| - 1]];
              p !in g && dest in g && g[dest] == if dest in f0 then f0[dest] else f0[p]
  {
    hide GoodListing, MigrationCode, MigrateAll, Dest, CopySucceeds, InstallDir;
    MigrationSucceedsExactly(f0, paths, users, io);
    if p in paths && u in users && p != [] {
      FaultlessPair(f0, paths, users, p, u);
    }
  }

  // ----- Equal names -----

  /** Index of the first listed source with the name, or the length. */
  function FirstNamed(paths: seq<Path>, name: string): (k: nat)
    ensures k <= |paths|
    ensures k < |paths| ==> BaseName(paths[k]) == name
    ensures forall j :: 0 <= j < k ==> BaseName(paths[j]) != name
  {
    if paths == [] || BaseName(paths[0]) == name then 0 else 1 + FirstNamed(paths[1..], name)
  }

  lemma {:induction false} FirstNamedAppend(paths: seq<Path>, p: Path, name: string)
    ensures FirstNamed(paths, name) < |paths| ==> FirstNamed(paths + [p], name) == FirstNamed(paths, name)
    ensures FirstNamed(paths, name) == |paths| ==>
              FirstNamed(paths + [p], name) == if BaseName(p) == name then |paths| else |paths| + 1
  {
    hide BaseName;
    var all := paths + [p];
    if paths == [] {
      assert all == [p] && all[1..] == [];
    } else {
      assert all[0] == paths[0] && all[1..] == paths[1..] + [p];
      FirstNamedAppend(paths[1..], p, name);
    }
  }

  lemma {:induction false} CopyToAllElsewhere(f: Files, p: Path, users: seq<int>, q: Path)
    requires forall u: int :: q != Dest(u, p) && q != Temp(u, p)
    ensures q in CopyToAll(f, p, users) <==> q in f
    ensures q in f ==> CopyToAll(f, p, users)[q] == f[q]
    decreases |users|
  {
    hide Dest, Temp;
    if users != [] {
      CopyToAllElsewhere(f, p, users[..|users| - 1], q);
    }
  }

  /** Copying a source that is there gives every listed user a file of its name, without replacing one. */
  lemma {:induction false} CopyToAllGives(f: Files, p: Path, users: seq<int>, u: int)
    requires p in f && PUBLIC_DIR <= p
    ensures var g := CopyToAll(f, p, users);
            && p in g && g[p] == f[p]
            && (u in users || Dest(u, p) in f ==>
                  Dest(u, p) in g && g[Dest(u, p)] == if Dest(u, p) in f then f[Dest(u, p)] else f[p])
            && (u !in users ==> (Dest(u, p) in g <==> Dest(u, p) in f))
    decreases |users|
  {
    hide Dest, Temp;
    if users != [] {
      var init, v := users[..|users| - 1], users[|users| - 1];
      assert users == init + [v];
      CopyToAllGives(f, p, init, u);
      CopyToAllGives(f, p, init, v);
      PlacesDiffer(p, u, p, v);
      PlacesDiffer(p, v, p, u);
    }
  }

  lemma MigrateOneGives(f: Files, p: Path, users: seq<int>, q: Path, u: int)
    requires p in f && PUBLIC_DIR <= p && PUBLIC_DIR <= q && u in users
    ensures var g := MigrateOne(f, p, users);
            && (q != p ==> (q in g <==> q in f) && (q in f ==> g[q] == f[q]))
            && (BaseName(q) != BaseName(p) ==> (Dest(u, q) in g <==> Dest(u, q) in f)
                                               && (Dest(u, q) in f ==> g[Dest(u, q)] == f[Dest(u, q)]))
            && (BaseName(q) == BaseName(p) ==> Dest(u, q) in g
                                               && g[Dest(u, q)] == if Dest(u, q) in f then f[Dest(u, q)] else f[p])
  {
    hide Dest, Temp, BaseName, CopyToAll;
    forall v: int ensures q != Dest(v, p) && q != Temp(v, p) {
      PlacesDiffer(p, v, q, v);
    }
    PlacesDiffer(q, u, p, u);
    CopyToAllElsewhere(f, p, users, q);
    if BaseName(q) != BaseName(p) {
      forall v: int ensures Dest(u, q) != Dest(v, p) && Dest(u, q) != Temp(v, p) {
        PlacesDiffer(q, u, p, v);
      }
      CopyToAllElsewhere(f, p, users, Dest(u, q));
    } else {
      CopyToAllGives(f, p, users, u);
    }
  }

  /** For any listing: a user ends up with the file he had under a name, or with the first listed source of that name. */
  lemma {:induction false} MigratedContent(f0: Files, paths: seq<Path>, users: seq<int>, q: Path, u: int)
    requires Distinct(paths) && forall p :: p in paths ==> p in f0 && PUBLIC_DIR <= p
    requires PUBLIC_DIR <= q && u in users
    ensures var g := MigrateAll(f0, paths, users);
            var k := FirstNamed(paths, BaseName(q));
            && (q !in paths ==> (q in g <==> q in f0) && (q in f0 ==> g[q] == f0[q]))
            && (Dest(u, q) in g <==> Dest(u, q) in f0 || k < |paths|)
            && (Dest(u, q) in f0 ==> g[Dest(u, q)] == f0[Dest(u, q)])
            && (Dest(u, q) !in f0 && k < |paths| ==> g[Dest(u, q)] == f0[paths[k]])
    decreases |paths|
  {
    hide Dest, Temp, BaseName, MigrateOne;
    if paths != [] {
      var init, p := paths[..|paths| - 1], paths[|paths| - 1];
      assert paths == init + [p];
      assert p in paths && p !in init;
      MigratedContent(f0, init, users, q, u);
      MigratedContent(f0, init, users, p, u);
      var f := MigrateAll(f0, init, users);
      assert MigrateAll(f0, paths, users) == MigrateOne(f, p, users);
      MigrateOneGives(f, p, users, q, u);
      FirstNamedAppend(init, p, BaseName(q));
      assert forall j :: 0 <= j < |init| ==> paths[j] == init[j];
    }
  }

  /**
    The exact condition for a font to survive: a user ends up with the content of a source exactly
    when the file he already had under that name, or else the first listed source of that name, has
    the same content. The source itself is gone either way.
   */
  lemma ContentSurvives(f0: Files, paths: seq<Path>, users: seq<int>, k: nat, u: int)
    requires Distinct(paths) && forall p :: p in paths ==> p in f0 && PUBLIC_DIR <= p
    requires k < |paths| && u in users
    ensures var p, g := paths[k], MigrateAll(f0, paths, users);
            var d := Dest(u, p);
            && p !in g && d in g
            && (g[d] == f0[p] <==>
                  (if d in f0 then f0[d] else f0[paths[FirstNamed(paths, BaseName(p))]]) == f0[p])
  {
    hide Dest, Temp, BaseName, MigrateAll;
    var p := paths[k];
    assert p in paths;
    MigratedContent(f0, paths, users, p, u);
    assert FirstNamed(paths, BaseName(p)) <= k;
    SourcesGone(f0, paths, users, k);
  }

  lemma {:induction false} SourcesGone(f0: Files, paths: seq<Path>, users: seq<int>, k: nat)
    requires forall p :: p in paths ==> PUBLIC_DIR <= p
    requires k < |paths|
    ensures paths[k] !in MigrateAll(f0, paths, users)
    decreases |paths|
  {
    hide Dest, Temp, CopyToAll;
    var init, p := paths[..|paths| - 1], paths[|paths| - 1];
    assert paths == init + [p] && paths[k] in paths;
    if k < |init| {
      assert forall q :: q in init ==> q in paths;
      SourcesGone(f0, init, users, k);
      var f := MigrateAll(f0, init, users);
      assert init[k] == paths[k];
      forall v: int ensures paths[k] != Dest(v, p) && paths[k] != Temp(v, p) {
        PlacesDiffer(p, v, paths[k], v);
      }
      CopyToAllElsewhere(f, p, users, paths[k]);
    }
  }
}
