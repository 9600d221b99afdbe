/**
  The migration of fonts from the public directory to every user: copy to temp, rename, and
  remove the source only after all users have it. `history` records the files after every
  change, so that a crash may leave any entry of it.
 */
module Migration {
  import opened Paths
  import opened FileCopy

  const ERR_OK := 0
  const ERR_OPEN_SRC_FILE := 5
  const ERR_COPY_FILE := 6
  const ERR_RENAME_FILE := 7
  const ERR_REMOVE_SRC_FILE := 8

  type Files = map<Path, Bytes>

  const PUBLIC_DIR: Path := ["data", "service", "el1", "public", "for-all-app", "fonts"]

  function BaseName(p: Path): string
  {
    if p == [] then "" else p[|p| - 1]
  }

  function Dest(u: int, p: Path): (d: Path)
    ensures |d| == 7
  {
    InstallDir(u) + [BaseName(p)]
  }

  function Temp(u: int, p: Path): (d: Path)
    ensures |d| == 8
  {
    InstallDir(u) + [TEMP_DIR, BaseName(p)]
  }

  /** What befalls one copy: the steps that fail, and the replies of the kernel. */
  datatype CopyIo = CopyIo(unreadable: bool, noTemp: bool, replies: seq<Reply>, noRename: bool, keepsTemp: bool)

  /** What befalls a migration, by the index of the file and of the user. */
  datatype MigrationIo = MigrationIo(copies: (nat, nat) -> CopyIo, keepsSource: nat -> bool)

  /** The code of copying a source that is there to a user who has no file of its name. */
  function PairCode(content: Bytes, io: CopyIo): int
  {
    if io.unreadable then ERR_OPEN_SRC_FILE
    else if io.noTemp || !CopySucceeds(content, io.replies) then ERR_COPY_FILE
    else if io.noRename then ERR_RENAME_FILE
    else ERR_OK
  }

  function CopyCode(files: Files, p: Path, u: int, io: CopyIo): int
  {
    if Dest(u, p) in files then ERR_OK
    else if p !in files then ERR_OPEN_SRC_FILE
    else PairCode(files[p], io)
  }

  /** The code of handling the i-th file from the j-th user on. */
  function FileCode(files: Files, p: Path, users: seq<int>, i: nat, j: nat, io: MigrationIo): int
    requires j <= |users|
    decreases |users| - j
  {
    if j == |users| then (if p in files && io.keepsSource(i) then ERR_REMOVE_SRC_FILE else ERR_OK)
    else
      var code := CopyCode(files, p, users[j], io.copies(i, j));
      if code != ERR_OK then code else FileCode(CopyTo(files, p, users[j]), p, users, i, j + 1, io)
  }

  /** The code of a migration from the i-th file on. */
  function MigrationCode(files: Files, paths: seq<Path>, users: seq<int>, i: nat, io: MigrationIo): int
    requires i <= |paths|
    decreases |paths| - i
  {
    if i == |paths| then ERR_OK
    else
      var code := FileCode(files, paths[i], users, i, 0, io);
      if code != ERR_OK then code else MigrationCode(MigrateOne(files, paths[i], users), paths, users, i + 1, io)
  }

  /** The files after a successful copy of source p to user u. */
  function CopyTo(files: Files, p: Path, u: int): Files
  {
    if Dest(u, p) in files || p !in files then files
    else (files - {Temp(u, p)})[Dest(u, p) := files[p]]
  }

  function CopyToAll(files: Files, p: Path, users: seq<int>): Files
  {
    if users == [] then files
    else CopyTo(CopyToAll(files, p, users[..|users| - 1]), p, users[|users| - 1])
  }

  function MigrateOne(files: Files, p: Path, users: seq<int>): Files
  {
    CopyToAll(files, p, users) - {p}
  }

  /** The files after an uninterrupted migration. */
  function MigrateAll(files: Files, paths: seq<Path>, users: seq<int>): Files
  {
    if paths == [] then files
    else MigrateOne(MigrateAll(files, paths[..|paths| - 1], users), paths[|paths| - 1], users)
  }

  // ----- The work done so far -----

  /** Pair (p, u) is done: source p has been brought to user u. */
  type Pairs = set<(Path, int)>

  /** A path that one of the done pairs made or cleared. */
  ghost predicate Touched(f0: Files, done: Pairs, q: Path)
  {
    exists p: Path, u: int :: (p, u) in done && Dest(u, p) !in f0 && (q == Dest(u, p) || q == Temp(u, p))
  }

  /**
    f is f0 with the done pairs copied and the removed sources gone: new files are complete
    copies, files that were there first are kept, and nothing else differs.
   */
  ghost predicate Partial(f0: Files, f: Files, done: Pairs, removed: set<Path>)
  {
    && (forall p :: p in removed ==> p !in f)
    && (forall p: Path, u: int :: (p, u) in done && Dest(u, p) !in f0 ==>
          p in f0 && Dest(u, p) in f && f[Dest(u, p)] == f0[p] && Temp(u, p) !in f)
    && (forall q :: q !in removed && !Touched(f0, done, q) ==> (q in f <==> q in f0) && (q in f0 ==> f[q] == f0[q]))
  }

  /** The listing GetDirFiles gives: files of the public directory, with distinct names that are not "temp". */
  ghost predicate GoodListing(f0: Files, sources: set<Path>)
  {
    && (forall p :: p in sources ==> p in f0 && PUBLIC_DIR <= p && BaseName(p) != TEMP_DIR)
    && (forall p, q :: p in sources && q in sources && BaseName(p) == BaseName(q) ==> p == q)
  }

  function AllPairs(sources: set<Path>, users: set<int>): Pairs
  {
    set p, u | p in sources && u in users :: (p, u)
  }

  // ----- Places do not collide -----

  lemma PublicIsNoUser(u: int, p: Path)
    requires PUBLIC_DIR <= p
    ensures !(InstallDir(u) <= p)
  {
    assert ToString(u)[0] in ToString(u) && "public"[0] == 'p';
    assert InstallDir(u)[3] != PUBLIC_DIR[3] == p[3];
  }

  lemma PlacesDiffer(p: Path, u: int, q: Path, v: int)
    ensures Dest(u, p) == Dest(v, q) <==> u == v && BaseName(p) == BaseName(q)
    ensures Temp(u, p) == Temp(v, q) <==> u == v && BaseName(p) == BaseName(q)
    ensures Dest(u, p) != Temp(v, q)
    ensures PUBLIC_DIR <= q ==> q != Dest(u, p) && q != Temp(u, p)
  {
    hide InstallDir;
    if Dest(u, p) == Dest(v, q) {
      assert InstallDir(v) <= Dest(u, p);
      InstallDirsApart(u, v, Dest(u, p));
      assert Dest(u, p)[6] == BaseName(p) && Dest(v, q)[6] == BaseName(q);
    }
    if Temp(u, p) == Temp(v, q) {
      assert InstallDir(v) <= Temp(u, p);
      InstallDirsApart(u, v, Temp(u, p));
      assert Temp(u, p)[7] == BaseName(p) && Temp(v, q)[7] == BaseName(q);
    }
    if PUBLIC_DIR <= q {
      PublicIsNoUser(u, q);
    }
  }

  /** A listed source is never one of the places the migration writes. */
  lemma SourceUntouched(f0: Files, done: Pairs, p: Path)
    requires PUBLIC_DIR <= p
    ensures !Touched(f0, done, p)
  {
    hide Dest, Temp;
    forall q: Path, u: int ensures p != Dest(u, q) && p != Temp(u, q) {
      PlacesDiffer(q, u, p, u);
    }
  }

  /** The places of a pair that is not done are untouched. */
  lemma PairUntouched(f0: Files, sources: set<Path>, done: Pairs, p: Path, u: int)
    requires GoodListing(f0, sources) && p in sources && (p, u) !in done
    requires forall q: Path, v: int :: (q, v) in done ==> q in sources
    ensures !Touched(f0, done, Dest(u, p)) && !Touched(f0, done, Temp(u, p))
  {
    hide Dest, Temp, BaseName;
    forall q: Path, v: int | (q, v) in done
      ensures Dest(u, p) != Dest(v, q) && Temp(u, p) != Temp(v, q) && Dest(u, p) != Temp(v, q) && Temp(u, p) != Dest(v, q)
    {
      PlacesDiffer(p, u, q, v);
      PlacesDiffer(q, v, p, u);
    }
  }

  // ----- Steps -----

  lemma NothingDone(f0: Files)
    ensures Partial(f0, f0, {}, {})
  {
    hide Dest, Temp;
  }

  lemma CopyStep(f0: Files, sources: set<Path>, f: Files, done: Pairs, removed: set<Path>, p: Path, u: int)
    requires GoodListing(f0, sources) && p in sources && p !in removed
    requires removed <= sources && forall q: Path, v: int :: (q, v) in done ==> q in sources
    requires Partial(f0, f, done, removed)
    ensures Partial(f0, CopyTo(f, p, u), done + {(p, u)}, removed)
    ensures p in f && f[p] == f0[p]
    ensures (p, u) !in done ==> (Dest(u, p) in f <==> Dest(u, p) in f0)
  {
    hide Dest, Temp, BaseName;
    SourceUntouched(f0, done, p);
    var next := CopyTo(f, p, u);
    var more := done + {(p, u)};
    DestsNotRemoved(f0, sources, removed, p, u);
    if (p, u) in done {
      assert more == done;
      DoneDest(f0, f, done, removed, p, u);
    } else {
      PairUntouched(f0, sources, done, p, u);
      CopyNew(f0, sources, f, done, removed, p, u);
    }
  }

  lemma DestsNotRemoved(f0: Files, sources: set<Path>, removed: set<Path>, p: Path, u: int)
    requires GoodListing(f0, sources) && removed <= sources
    ensures Dest(u, p) !in removed && Temp(u, p) !in removed
  {
    hide Dest, Temp, BaseName;
    forall q | q in removed ensures q != Dest(u, p) && q != Temp(u, p) {
      PlacesDiffer(p, u, q, u);
    }
  }

  lemma DoneDest(f0: Files, f: Files, done: Pairs, removed: set<Path>, p: Path, u: int)
    requires Partial(f0, f, done, removed) && (p, u) in done && Dest(u, p) !in removed
    ensures Dest(u, p) in f
  {
    hide Dest, Temp, BaseName;
    if Dest(u, p) in f0 {
      forall q: Path, v: int ensures Dest(u, p) != Temp(v, q) {
        PlacesDiffer(p, u, q, v);
      }
      assert !Touched(f0, done, Dest(u, p));
    }
  }

  lemma CopyNew(f0: Files, sources: set<Path>, f: Files, done: Pairs, removed: set<Path>, p: Path, u: int)
    requires p in f0 && p in f && f[p] == f0[p] && p !in removed
    requires Partial(f0, f, done, removed)
    requires !Touched(f0, done, Dest(u, p)) && !Touched(f0, done, Temp(u, p))
    requires Dest(u, p) !in removed && Temp(u, p) !in removed
    ensures Partial(f0, CopyTo(f, p, u), done + {(p, u)}, removed)
  {
    hide Dest, Temp, BaseName;
  }

  lemma RemoveStep(f0: Files, f: Files, done: Pairs, removed: set<Path>, p: Path)
    requires Partial(f0, f, done, removed) && PUBLIC_DIR <= p
    ensures Partial(f0, f - {p}, done, removed + {p})
  {
    hide Dest, Temp;
    forall q: Path, u: int ensures p != Dest(u, q) && p != Temp(u, q) {
      PlacesDiffer(q, u, p, u);
    }
  }

  // ----- Crash safety and resumption -----

  /** Files that agree with f everywhere but at one temp path of a pair whose copy has not arrived. */
  ghost predicate MidCopy(f0: Files, f: Files, g: Files, sources: set<Path>, users: set<int>)
  {
    g == f || exists p: Path, u: int ::
                p in sources && u in users && Dest(u, p) !in f && Dest(u, p) !in f0 && g - {Temp(u, p)} == f - {Temp(u, p)}
  }

  /**
    A state a crash may leave: some pairs are done, a source is gone only if all users have it, and
    at most one copy is unfinished, in a temp directory.
   */
  ghost predicate CrashState(f0: Files, g: Files, sources: set<Path>, users: set<int>)
  {
    exists f: Files, done: Pairs, removed: set<Path> :: ComesFrom(f0, f, done, removed, g, sources, users)
  }

  /**
    What a crash state means for the fonts: a source is still there unchanged, or every user has a
    file of its name; files that users had are kept, and new ones are complete copies.
   */
  ghost predicate Safe(f0: Files, g: Files, sources: set<Path>, users: set<int>)
  {
    && (forall p :: p in sources && p in f0 && p in g ==> g[p] == f0[p])
    && (forall p, u :: p in sources && p !in g && u in users ==> Dest(u, p) in g)
    && (forall p, u :: p in sources && u in users && Dest(u, p) in f0 ==>
          Dest(u, p) in g && g[Dest(u, p)] == f0[Dest(u, p)])
    && (forall p, u :: p in sources && p in f0 && u in users && Dest(u, p) !in f0 && Dest(u, p) in g ==>
          g[Dest(u, p)] == f0[p])
  }

  lemma PartialFacts(f0: Files, f: Files, done: Pairs, removed: set<Path>, sources: set<Path>, users: set<int>,
                     p: Path, u: int)
    requires GoodListing(f0, sources) && Partial(f0, f, done, removed)
    requires done <= AllPairs(sources, users) && removed <= sources
    requires p in sources
    ensures p in f <==> p !in removed
    ensures p in f ==> f[p] == f0[p]
    ensures Dest(u, p) in f0 ==> Dest(u, p) in f && f[Dest(u, p)] == f0[Dest(u, p)]
    ensures Dest(u, p) !in f0 ==> (Dest(u, p) in f <==> (p, u) in done)
    ensures Dest(u, p) !in f0 && (p, u) in done ==> f[Dest(u, p)] == f0[p] && Temp(u, p) !in f
    ensures (p, u) !in done || Dest(u, p) in f0 ==>
              (Temp(u, p) in f <==> Temp(u, p) in f0) && (Temp(u, p) in f ==> f[Temp(u, p)] == f0[Temp(u, p)])
  {
    hide Dest, Temp, BaseName;
    SourceUntouched(f0, done, p);
    DestsNotRemoved(f0, sources, removed, p, u);
    assert forall q: Path, v: int :: (q, v) in done ==> q in sources;
    if (p, u) !in done {
      PairUntouched(f0, sources, done, p, u);
    } else if Dest(u, p) in f0 {
      PresentUntouched(f0, sources, done, p, u);
    }
  }

  lemma PresentUntouched(f0: Files, sources: set<Path>, done: Pairs, p: Path, u: int)
    requires GoodListing(f0, sources) && p in sources && Dest(u, p) in f0
    ensures !Touched(f0, done, Dest(u, p)) && !Touched(f0, done, Temp(u, p))
  {
    hide Dest, Temp, BaseName;
    forall q: Path, v: int | (q, v) in done && Dest(v, q) !in f0
      ensures Dest(u, p) != Dest(v, q) && Temp(u, p) != Temp(v, q) && Dest(u, p) != Temp(v, q) && Temp(u, p) != Dest(v, q)
    {
      PlacesDiffer(p, u, q, v);
      PlacesDiffer(q, v, p, u);
    }
  }

  lemma SourceIsNoTemp(p: Path)
    requires PUBLIC_DIR <= p
    ensures forall q: Path, u: int :: p != Temp(u, q)
  {
    hide Dest, Temp;
    forall q: Path, u: int ensures p != Temp(u, q) {
      PlacesDiffer(q, u, p, u);
    }
  }

  /** A path that is no temp path is the same before and during a copy. */
  lemma SameButTemp(f0: Files, f: Files, g: Files, sources: set<Path>, users: set<int>, q: Path)
    requires MidCopy(f0, f, g, sources, users)
    requires forall p: Path, u: int :: p in sources && u in users && Dest(u, p) !in f && Dest(u, p) !in f0 ==>
               q != Temp(u, p)
    ensures q in g <==> q in f
    ensures q in g ==> g[q] == f[q]
  {
    hide Dest, Temp, BaseName;
    if g != f {
      var p: Path, u: int :|
        p in sources && u in users && Dest(u, p) !in f && Dest(u, p) !in f0 && g - {Temp(u, p)} == f - {Temp(u, p)};
      var temp := Temp(u, p);
      assert q in g <==> q in g - {temp};
      assert q in f <==> q in f - {temp};
      if q in g {
        assert (g - {temp})[q] == g[q] && (f - {temp})[q] == f[q];
      }
    }
  }

  lemma DestIsNoTemp(u: int, p: Path)
    ensures forall q: Path, v: int :: Dest(u, p) != Temp(v, q)
  {
    hide Dest, Temp;
    forall q: Path, v: int ensures Dest(u, p) != Temp(v, q) {
      PlacesDiffer(p, u, q, v);
    }
  }

  /** A crash state, together with the files between copies that it comes from. */
  ghost predicate ComesFrom(f0: Files, f: Files, done: Pairs, removed: set<Path>, g: Files,
                            sources: set<Path>, users: set<int>)
  {
    && Partial(f0, f, done, removed)
    && done <= AllPairs(sources, users) && removed <= sources
    && AllPairs(removed, users) <= done
    && MidCopy(f0, f, g, sources, users)
  }

  lemma CrashFacts(f0: Files, f: Files, done: Pairs, removed: set<Path>, g: Files, sources: set<Path>, users: set<int>,
                   p: Path, u: int)
    requires GoodListing(f0, sources) && ComesFrom(f0, f, done, removed, g, sources, users)
    requires p in sources && u in users
    ensures p in g ==> g[p] == f0[p]
    ensures p !in g ==> Dest(u, p) in g
    ensures Dest(u, p) in f0 ==> Dest(u, p) in g && g[Dest(u, p)] == f0[Dest(u, p)]
    ensures Dest(u, p) !in f0 && Dest(u, p) in g ==> g[Dest(u, p)] == f0[p] && Temp(u, p) !in g
  {
    hide Dest, Temp, BaseName, Partial, MidCopy;
    SourceIsNoTemp(p);
    DestIsNoTemp(u, p);
    SameButTemp(f0, f, g, sources, users, p);
    SameButTemp(f0, f, g, sources, users, Dest(u, p));
    PartialFacts(f0, f, done, removed, sources, users, p, u);
    assert p in removed ==> (p, u) in AllPairs(removed, users);
    if Dest(u, p) !in f0 && Dest(u, p) in f {
      forall q: Path, v: int | q in sources && v in users && Dest(v, q) !in f ensures Temp(u, p) != Temp(v, q) {
        PlacesDiffer(p, u, q, v);
      }
      SameButTemp(f0, f, g, sources, users, Temp(u, p));
    }
  }

  /** Every crash state is safe. */
  lemma CrashStateIsSafe(f0: Files, g: Files, sources: set<Path>, users: set<int>)
    requires GoodListing(f0, sources) && CrashState(f0, g, sources, users)
    ensures Safe(f0, g, sources, users)
  {
    hide Dest, Temp, BaseName, Partial, MidCopy;
    var f: Files, done: Pairs, removed: set<Path> :| ComesFrom(f0, f, done, removed, g, sources, users);
    forall p, u | p in sources && u in users
      ensures p !in g ==> Dest(u, p) in g
      ensures Dest(u, p) in f0 ==> Dest(u, p) in g && g[Dest(u, p)] == f0[Dest(u, p)]
      ensures Dest(u, p) !in f0 && Dest(u, p) in g ==> g[Dest(u, p)] == f0[p]
    {
      CrashFacts(f0, f, done, removed, g, sources, users, p, u);
    }
    forall p | p in sources && p in g ensures g[p] == f0[p] {
      SourceIsNoTemp(p);
      SameButTemp(f0, f, g, sources, users, p);
      PartialFacts(f0, f, done, removed, sources, users, p, 0);
    }
  }

  function Remaining(g: Files, sources: set<Path>): set<Path>
  {
    set p | p in sources && p in g
  }

  /** Outside the places of the migration, a crash state and the start agree. */
  lemma ElsewhereSame(f0: Files, f: Files, done: Pairs, removed: set<Path>, g: Files,
                      sources: set<Path>, users: set<int>, q: Path)
    requires ComesFrom(f0, f, done, removed, g, sources, users)
    requires q !in sources && !Touched(f0, AllPairs(sources, users), q)
    ensures (q in g <==> q in f0) && (q in f0 ==> g[q] == f0[q])
  {
    hide Dest, Temp, BaseName, MidCopy;
    assert !Touched(f0, done, q);
    forall p: Path, u: int | p in sources && u in users && Dest(u, p) !in f0 ensures q != Temp(u, p) {
      assert (p, u) in AllPairs(sources, users);
    }
    SameButTemp(f0, f, g, sources, users, q);
  }

  /**
    A second migration of the sources that are left, by the same users and in any order, ends where
    an uninterrupted one would have ended.
   */
  lemma RerunCompletes(f0: Files, g: Files, h: Files, sources: set<Path>, users: set<int>)
    requires GoodListing(f0, sources) && CrashState(f0, g, sources, users)
    requires var left := Remaining(g, sources);
             Partial(g, h, AllPairs(left, users), left)
    ensures Partial(f0, h, AllPairs(sources, users), sources)
  {
    hide Dest, Temp, BaseName, MidCopy, GoodListing;
    var left := Remaining(g, sources);
    var f: Files, done: Pairs, removed: set<Path> :| ComesFrom(f0, f, done, removed, g, sources, users);
    hide CrashState, ComesFrom;
    forall p | p in sources ensures p !in h {
      assert PUBLIC_DIR <= p by { Listed(f0, sources, p); }
      SourceUntouched(g, AllPairs(left, users), p);
    }
    forall p: Path, u: int | (p, u) in AllPairs(sources, users) && Dest(u, p) !in f0
      ensures p in f0 && Dest(u, p) in h && h[Dest(u, p)] == f0[p] && Temp(u, p) !in h
    {
      Listed(f0, sources, p);
      RerunPair(f0, f, done, removed, g, h, sources, users, p, u);
    }
    forall q | q !in sources && !Touched(f0, AllPairs(sources, users), q)
      ensures (q in h <==> q in f0) && (q in f0 ==> h[q] == f0[q])
    {
      ElsewhereSame(f0, f, done, removed, g, sources, users, q);
      forall p: Path, u: int | (p, u) in AllPairs(left, users) && Dest(u, p) !in g
        ensures q != Dest(u, p) && q != Temp(u, p)
      {
        CrashFacts(f0, f, done, removed, g, sources, users, p, u);
        assert (p, u) in AllPairs(sources, users);
      }
      assert !Touched(g, AllPairs(left, users), q);
    }
  }

  lemma Listed(f0: Files, sources: set<Path>, p: Path)
    requires GoodListing(f0, sources) && p in sources
    ensures p in f0 && PUBLIC_DIR <= p && BaseName(p) != TEMP_DIR
  {
  }

  lemma StillListed(f0: Files, g: Files, sources: set<Path>)
    requires GoodListing(f0, sources)
    ensures GoodListing(g, Remaining(g, sources))
  {
    hide BaseName;
  }

  lemma RerunPair(f0: Files, f: Files, done: Pairs, removed: set<Path>, g: Files, h: Files,
                  sources: set<Path>, users: set<int>, p: Path, u: int)
    requires GoodListing(f0, sources) && ComesFrom(f0, f, done, removed, g, sources, users)
    requires p in sources && u in users && Dest(u, p) !in f0
    requires var left := Remaining(g, sources);
             Partial(g, h, AllPairs(left, users), left)
    ensures Dest(u, p) in h && h[Dest(u, p)] == f0[p] && Temp(u, p) !in h
  {
    hide Dest, Temp, BaseName, GoodListing, ComesFrom;
    var left := Remaining(g, sources);
    CrashFacts(f0, f, done, removed, g, sources, users, p, u);
    if Dest(u, p) in g {
      StillListed(f0, g, sources);
      if p in left {
        PresentUntouched(g, left, AllPairs(left, users), p, u);
      } else {
        LeftUntouched(f0, g, sources, users, p, u);
      }
      DestsNotRemoved(f0, sources, left, p, u);
    } else {
      assert (p, u) in AllPairs(left, users);
    }
  }

  lemma LeftUntouched(f0: Files, g: Files, sources: set<Path>, users: set<int>, p: Path, u: int)
    requires GoodListing(f0, sources) && p in sources && p !in g
    ensures var pairs := AllPairs(Remaining(g, sources), users);
            !Touched(g, pairs, Dest(u, p)) && !Touched(g, pairs, Temp(u, p))
  {
    hide Dest, Temp, BaseName;
    forall q: Path, v: int | (q, v) in AllPairs(Remaining(g, sources), users)
      ensures Dest(u, p) != Dest(v, q) && Temp(u, p) != Temp(v, q) && Dest(u, p) != Temp(v, q) && Temp(u, p) != Dest(v, q)
    {
      PlacesDiffer(p, u, q, v);
      PlacesDiffer(q, v, p, u);
    }
  }

  /** There is only one final state. */
  lemma FinalStateIsUnique(f0: Files, g: Files, h: Files, done: Pairs, removed: set<Path>)
    requires Partial(f0, g, done, removed) && Partial(f0, h, done, removed)
    ensures g == h
  {
    hide Dest, Temp, BaseName;
    forall q ensures (q in g <==> q in h) && (q in g ==> g[q] == h[q]) {
      if q !in removed && Touched(f0, done, q) {
        var p: Path, u: int :| (p, u) in done && Dest(u, p) !in f0 && (q == Dest(u, p) || q == Temp(u, p));
      }
    }
    assert g.Keys == h.Keys;
  }
}
