/**
  Installs of one user that run at the same time. Every FontConfig method holds the config lock,
  so each is one step; the steps of different calls interleave freely, and so do deletions and
  version updates by other calls.
 */
module InstallCap {
  import opened Wrappers
  import opened Paths
  import opened FileCopy
  import opened RecordStore
  import opened FontStore

  /** The next config step of a call. */
  datatype Pc =
    | UserCount(path: string, names: seq<string>)
    | UserInsert(path: string, names: seq<string>)
    | ScopeUrl(record: Record)
    | ScopeCount(record: Record)
    | ScopeName(record: Record, k: nat)
    | ScopeInsert(record: Record)
    | Done

  datatype State = State(w: World, threads: map<int, Pc>)

  /** The user, the install limit, and how many installs may be in flight at once. */
  datatype Setting = Setting(user: int, env: Env, calls: nat)

  datatype Action =
    | Begin(t: int, pc: Pc)
    | Step(t: int, writeOk: bool)
    | GiveUp(t: int)                        // the copy fails
    | Delete(key: Key, writeOk: bool)
    | Update(writeOk: bool)

  function PcOf(s: State, t: int): Pc
  {
    if t in s.threads then s.threads[t] else Done
  }

  predicate InFlight(pc: Pc)
  {
    !pc.Done?
  }

  /** A scope install between its count check and its insert. */
  predicate Pending(pc: Pc)
  {
    pc.ScopeName? || pc.ScopeInsert?
  }

  predicate IsScope(pc: Pc)
  {
    pc.ScopeUrl? || pc.ScopeCount? || Pending(pc)
  }

  /** A scope install of `url` between its url check and its insert. */
  predicate PendingFor(pc: Pc, url: string)
  {
    (pc.ScopeCount? || Pending(pc)) && pc.record.srcPath == url
  }

  function Threads(threads: map<int, Pc>, p: Pc -> bool): set<int>
  {
    set t | t in threads && p(threads[t])
  }

  lemma ThreadsUpdate(threads: map<int, Pc>, t: int, pc: Pc, p: Pc -> bool)
    ensures Threads(threads[t := pc], p) ==
            if p(pc) then Threads(threads, p) + {t} else Threads(threads, p) - {t}
  {
  }

  function Max(c: Setting): nat
  {
    GetMaxInstallNum(c.env)
  }

  predicate Enabled(c: Setting, s: State, a: Action)
  {
    match a
    case Begin(t, pc) =>
      PcOf(s, t).Done? && (pc.UserCount? || pc.ScopeUrl?) && |Threads(s.threads, InFlight)| < c.calls
    case Step(t, _) => !PcOf(s, t).Done?
    case GiveUp(t) => PcOf(s, t).UserInsert? || PcOf(s, t).ScopeInsert?
    case Delete(_, _) => true
    case Update(_) => true
  }

  /** One config step of an install: the store and the call's next step. */
  function StepCall(c: Setting, w: World, pc: Pc, writeOk: bool): (World, Pc)
  {
    match pc
    case UserCount(path, names) =>
      (w, if |Items(w, c.user)| >= Max(c) then Done else UserInsert(path, names))
    case UserInsert(path, names) =>
      (InsertUnderLimit(w, c.user, path, names, Max(c), writeOk).1, Done)
    case ScopeUrl(r) =>
      (w, if FindRecord(w, c.user, ByUrl(r.srcPath)).Some? then Done else ScopeCount(r))
    case ScopeCount(r) =>
      (w, if |Items(w, c.user)| >= Max(c) || r.fullNames == [] then Done else ScopeName(r, 0))
    case ScopeName(r, k) =>
      (w, if k >= |r.fullNames| then ScopeInsert(r)
          else if FindRecord(w, c.user, ByName(r.fullNames[k])).Some? then Done
          else ScopeName(r, k + 1))
    case ScopeInsert(r) => (InsertScope(w, c.user, r, writeOk).1, Done)
    case Done => (w, Done)
  }

  function Next(c: Setting, s: State, a: Action): State
  {
    match a
    case Begin(t, pc) => s.(threads := s.threads[t := pc])
    case Step(t, writeOk) =>
      var (w, pc) := StepCall(c, s.w, PcOf(s, t), writeOk);
      State(w, s.threads[t := pc])
    case GiveUp(t) => s.(threads := s.threads[t := Done])
    case Delete(key, writeOk) => s.(w := DeleteRecord(s.w, c.user, key, writeOk).1)
    case Update(writeOk) => s.(w := CheckAndUpdate(s.w, c.user, c.env, writeOk).1)
  }

  predicate IsRun(c: Setting, s: State, run: seq<Action>)
    decreases |run|
  {
    run != [] ==> Enabled(c, s, run[0]) && IsRun(c, Next(c, s, run[0]), run[1..])
  }

  function Final(c: Setting, s: State, run: seq<Action>): State
    decreases |run|
  {
    if run == [] then s else Final(c, Next(c, s, run[0]), run[1..])
  }

  // ----- What a step does to the list -----

  /** Every item is kept in place with its url. */
  predicate SameUrls(items: seq<Item>, items2: seq<Item>)
  {
    |items2| == |items| && forall i :: 0 <= i < |items| ==> items2[i].srcPath == items[i].srcPath
  }

  /** The item a step of this call appends when it appends one. */
  function Appended(pc: Pc): Option<Item>
  {
    match pc
    case UserInsert(path, names) => Some(ConstructItem(path, names))
    case ScopeInsert(r) => Some(ConstructScopeItem(r))
    case _ => None
  }

  lemma StepItems(c: Setting, w: World, pc: Pc, writeOk: bool)
    ensures var items, items2 := Items(w, c.user), Items(StepCall(c, w, pc, writeOk).0, c.user);
      items2 == items
      || (Appended(pc).Some? && items2 == items + [Appended(pc).value] && (pc.UserInsert? ==> |items| < Max(c)))
  {
  }

  lemma DeleteItems(w: World, u: int, key: Key, writeOk: bool)
    ensures var items, items2 := Items(w, u), Items(DeleteRecord(w, u, key, writeOk).1, u);
      items2 == items || items2 == RemoveFirst(items, key)
  {
  }

  lemma UpdateItems(w: World, u: int, env: Env, writeOk: bool)
    ensures SameUrls(Items(w, u), Items(CheckAndUpdate(w, u, env, writeOk).1, u))
  {
    UpgradeItems(ConfigOf(w, u), u, w.files, env.tool);
  }

  // ----- The cap -----

  predicate CapInv(c: Setting, s: State)
  {
    && |Threads(s.threads, InFlight)| <= c.calls
    && Threads(s.threads, Pending) <= Threads(s.threads, InFlight)
    && |Items(s.w, c.user)| + |Threads(s.threads, Pending)| <= Max(c) - 1 + c.calls
  }

  lemma CountedSubset(a: set<int>, b: set<int>)
    requires a <= b
    ensures |a| <= |b|
  {
    assert b == a + (b - a);
  }

  lemma NextKeepsCap(c: Setting, s: State, a: Action)
    requires CapInv(c, s) && Enabled(c, s, a)
    ensures CapInv(c, Next(c, s, a))
  {
    match a {
      case Begin(t, pc) =>
        ThreadsUpdate(s.threads, t, pc, InFlight);
        ThreadsUpdate(s.threads, t, pc, Pending);
      case Step(t, writeOk) =>
        StepKeepsCap(c, s, t, writeOk);
      case GiveUp(t) =>
        ThreadsUpdate(s.threads, t, Done, InFlight);
        ThreadsUpdate(s.threads, t, Done, Pending);
      case Delete(key, writeOk) =>
        DeleteItems(s.w, c.user, key, writeOk);
      case Update(writeOk) =>
        UpdateItems(s.w, c.user, c.env, writeOk);
    }
  }

  /** Only the count check makes a call pending, and an insert ends its call. */
  lemma StepPc(c: Setting, w: World, pc: Pc, writeOk: bool)
    ensures var (w2, next) := StepCall(c, w, pc, writeOk);
      && (Pending(next) ==> Pending(pc) || (pc.ScopeCount? && |Items(w, c.user)| < Max(c)))
      && (Appended(pc).Some? ==> next.Done? && (pc.UserInsert? || Pending(pc)))
  {
  }

  lemma StepKeepsCap(c: Setting, s: State, t: int, writeOk: bool)
    requires CapInv(c, s) && !PcOf(s, t).Done?
    ensures CapInv(c, Next(c, s, Step(t, writeOk)))
  {
    var pc := PcOf(s, t);
    var next := StepCall(c, s.w, pc, writeOk).1;
    StepItems(c, s.w, pc, writeOk);
    StepPc(c, s.w, pc, writeOk);
    ThreadsUpdate(s.threads, t, next, InFlight);
    ThreadsUpdate(s.threads, t, next, Pending);
    assert t in Threads(s.threads, Pending) <==> Pending(pc);
    assert t in Threads(s.threads, InFlight);
    assert Pending(next) ==> InFlight(next);
    hide Items, StepCall, Threads, GetMaxInstallNum, InFlight, Pending;
    CountedSubset(Threads(s.threads, Pending) - {t}, Threads(s.threads, InFlight) - {t});
  }

  lemma {:induction false} RunKeepsCap(c: Setting, s: State, run: seq<Action>)
    requires CapInv(c, s) && IsRun(c, s, run)
    ensures CapInv(c, Final(c, s, run))
    decreases |run|
  {
    if run != [] {
      NextKeepsCap(c, s, run[0]);
      RunKeepsCap(c, Next(c, s, run[0]), run[1..]);
    }
  }

  predicate Resting(s: State)
  {
    Threads(s.threads, InFlight) == {}
  }

  /**
    With at most c.calls installs in flight, the records and the scope installs past their count
    check never exceed the limit by more than c.calls - 1; one call at a time never exceeds it.
   */
  lemma CapUnderConcurrency(c: Setting, s: State, run: seq<Action>)
    requires Resting(s) && c.calls >= 1 && |Items(s.w, c.user)| <= Max(c) && IsRun(c, s, run)
    ensures var end := Final(c, s, run);
      |Items(end.w, c.user)| + |Threads(end.threads, Pending)| <= Max(c) - 1 + c.calls
  {
    CountedSubset(Threads(s.threads, Pending), Threads(s.threads, InFlight)) by {
      assert Threads(s.threads, Pending) <= Threads(s.threads, InFlight);
    }
    RunKeepsCap(c, s, run);
  }

  // ----- User-level installs alone -----

  predicate UserOnly(c: Setting, s: State)
  {
    Threads(s.threads, IsScope) == {} && |Items(s.w, c.user)| <= Max(c)
  }

  lemma NextKeepsUserOnly(c: Setting, s: State, a: Action)
    requires UserOnly(c, s) && Enabled(c, s, a) && !(a.Begin? && IsScope(a.pc))
    ensures UserOnly(c, Next(c, s, a))
  {
    match a {
      case Begin(t, pc) =>
        ThreadsUpdate(s.threads, t, pc, IsScope);
      case Step(t, writeOk) =>
        var pc := PcOf(s, t);
        var next := StepCall(c, s.w, pc, writeOk).1;
        assert !IsScope(pc) by { assert IsScope(pc) ==> t in Threads(s.threads, IsScope); }
        StepItems(c, s.w, pc, writeOk);
        ThreadsUpdate(s.threads, t, next, IsScope);
      case GiveUp(t) =>
        ThreadsUpdate(s.threads, t, Done, IsScope);
      case Delete(key, writeOk) =>
        DeleteItems(s.w, c.user, key, writeOk);
      case Update(writeOk) =>
        UpdateItems(s.w, c.user, c.env, writeOk);
    }
  }

  /** User-level installs alone never pass the limit, however many run at once. */
  lemma {:induction false} UserInstallsKeepCap(c: Setting, s: State, run: seq<Action>)
    requires UserOnly(c, s) && IsRun(c, s, run)
    requires forall k :: 0 <= k < |run| ==> !(run[k].Begin? && IsScope(run[k].pc))
    ensures |Items(Final(c, s, run).w, c.user)| <= Max(c)
    decreases |run|
  {
    if run != [] {
      NextKeepsUserOnly(c, s, run[0]);
      UserInstallsKeepCap(c, Next(c, s, run[0]), run[1..]);
    }
  }

  /** And one below the limit gets in: its record is appended. */
  lemma UserInstallGetsIn(c: Setting, s: State, t: int, path: string, names: seq<string>)
    requires PcOf(s, t).Done? && |Threads(s.threads, InFlight)| < c.calls
    requires HasArray(ConfigOf(s.w, c.user)) && |Items(s.w, c.user)| < Max(c)
    requires FindRecord(s.w, c.user, ByPath(path)).None?
    ensures var run := [Begin(t, UserCount(path, names))] + ([Step(t, true)] + [Step(t, true)]);
            && IsRun(c, s, run)
            && Items(Final(c, s, run).w, c.user) == Items(s.w, c.user) + [ConstructItem(path, names)]
  {
    var s1 := Next(c, s, Begin(t, UserCount(path, names)));
    var s2 := Next(c, s1, Step(t, true));
    var s3 := Next(c, s2, Step(t, true));
    assert s2 == State(s.w, s1.threads[t := UserInsert(path, names)]);
    assert Items(s3.w, c.user) == Items(s.w, c.user) + [ConstructItem(path, names)];
    hide StepCall, Items, FindRecord, Threads, Max;
    RunCons(c, s2, Step(t, true), []);
    assert [Step(t, true)] + [] == [Step(t, true)];
    RunCons(c, s1, Step(t, true), [Step(t, true)]);
    RunCons(c, s, Begin(t, UserCount(path, names)), [Step(t, true)] + [Step(t, true)]);
  }

  lemma RunCons(c: Setting, s: State, a: Action, rest: seq<Action>)
    requires Enabled(c, s, a) && IsRun(c, Next(c, s, a), rest)
    ensures IsRun(c, s, [a] + rest) && Final(c, s, [a] + rest) == Final(c, Next(c, s, a), rest)
  {
    hide Next, Enabled;
    assert ([a] + rest)[1..] == rest;
  }

  // ----- Urls -----

  function ForUrl(url: string): Pc -> bool
  {
    pc => PendingFor(pc, url)
  }

  predicate UrlInv(c: Setting, s: State, url: string)
  {
    && |Threads(s.threads, InFlight)| <= c.calls
    && Count(Items(s.w, c.user), ByUrl(url)) + |Threads(s.threads, ForUrl(url))| <= c.calls
  }

  lemma {:induction false} SameUrlsCount(items: seq<Item>, items2: seq<Item>, url: string)
    requires SameUrls(items, items2)
    ensures Count(items2, ByUrl(url)) == Count(items, ByUrl(url))
  {
    if items != [] {
      assert items2[0].srcPath == items[0].srcPath;
      SameUrlsCount(items[1..], items2[1..], url);
    }
  }

  lemma {:induction false} NoneFound(items: seq<Item>, key: Key)
    requires First(items, key) >= |items|
    ensures Count(items, key) == 0
  {
    if items != [] {
      assert First(items, key) == 1 + First(items[1..], key);
      NoneFound(items[1..], key);
    }
  }

  lemma StepUrls(c: Setting, w: World, pc: Pc, writeOk: bool, url: string)
    requires url != ""
    ensures var before := Count(Items(w, c.user), ByUrl(url));
      var after := Count(Items(StepCall(c, w, pc, writeOk).0, c.user), ByUrl(url));
      after == before || (pc.ScopeInsert? && pc.record.srcPath == url && after == before + 1)
    ensures PendingFor(StepCall(c, w, pc, writeOk).1, url) ==>
              PendingFor(pc, url) || (pc.ScopeUrl? && Count(Items(w, c.user), ByUrl(url)) == 0)
    ensures pc.ScopeInsert? ==> StepCall(c, w, pc, writeOk).1.Done?
  {
    StepItems(c, w, pc, writeOk);
    if Appended(pc).Some? {
      SelectAppend(Items(w, c.user), Appended(pc).value, ByUrl(url));
    }
    if pc.ScopeUrl? && PendingFor(StepCall(c, w, pc, writeOk).1, url) {
      NoneFound(Items(w, c.user), ByUrl(url));
    }
  }

  lemma DeleteCount(items: seq<Item>, key: Key, counted: Key)
    ensures Count(RemoveFirst(items, key), counted) <= Count(items, counted)
  {
    if First(items, key) < |items| {
      CountRemoveAt(items, First(items, key), counted);
    }
  }

  lemma NextKeepsUrls(c: Setting, s: State, a: Action, url: string)
    requires UrlInv(c, s, url) && Enabled(c, s, a) && url != ""
    ensures UrlInv(c, Next(c, s, a), url)
  {
    hide Items, DeleteRecord, CheckAndUpdate, StepCall, Count, Threads;
    match a {
      case Begin(t, pc) =>
        ThreadsUpdate(s.threads, t, pc, InFlight);
        ThreadsUpdate(s.threads, t, pc, ForUrl(url));
      case Step(t, writeOk) =>
        StepKeepsUrls(c, s, t, writeOk, url);
      case GiveUp(t) =>
        ThreadsUpdate(s.threads, t, Done, InFlight);
        ThreadsUpdate(s.threads, t, Done, ForUrl(url));
      case Delete(key, writeOk) =>
        DeleteItems(s.w, c.user, key, writeOk);
        DeleteCount(Items(s.w, c.user), key, ByUrl(url));
      case Update(writeOk) =>
        UpdateItems(s.w, c.user, c.env, writeOk);
        SameUrlsCount(Items(s.w, c.user), Items(CheckAndUpdate(s.w, c.user, c.env, writeOk).1, c.user), url);
    }
  }

  lemma PendingInFlight(threads: map<int, Pc>, url: string)
    ensures Threads(threads, ForUrl(url)) <= Threads(threads, InFlight)
  {
    forall t | t in Threads(threads, ForUrl(url)) ensures t in Threads(threads, InFlight) {
      assert ForUrl(url)(threads[t]) && PendingFor(threads[t], url) && InFlight(threads[t]);
    }
  }

  lemma StepKeepsUrls(c: Setting, s: State, t: int, writeOk: bool, url: string)
    requires UrlInv(c, s, url) && !PcOf(s, t).Done? && url != ""
    ensures UrlInv(c, Next(c, s, Step(t, writeOk)), url)
  {
    var pc := PcOf(s, t);
    var next := StepCall(c, s.w, pc, writeOk).1;
    StepUrls(c, s.w, pc, writeOk, url);
    assert ForUrl(url)(next) <==> PendingFor(next, url);
    assert ForUrl(url)(pc) <==> PendingFor(pc, url);
    PendingInFlight(s.threads[t := next], url);
    ThreadsUpdate(s.threads, t, next, InFlight);
    ThreadsUpdate(s.threads, t, next, ForUrl(url));
    assert t in Threads(s.threads, ForUrl(url)) <==> PendingFor(pc, url);
    assert t in Threads(s.threads, InFlight);
    hide Items, StepCall, Threads, PendingFor, ForUrl, Count;
    CountedSubset(Threads(s.threads[t := next], ForUrl(url)), Threads(s.threads[t := next], InFlight));
  }

  /** No url is recorded more often than there are calls in flight; one call at a time keeps urls unique. */
  lemma {:induction false} UrlsUnderConcurrency(c: Setting, s: State, run: seq<Action>, url: string)
    requires UrlInv(c, s, url) && IsRun(c, s, run) && url != ""
    ensures UrlInv(c, Final(c, s, run), url)
    decreases |run|
  {
    if run != [] {
      NextKeepsUrls(c, s, run[0], url);
      UrlsUnderConcurrency(c, Next(c, s, run[0]), run[1..], url);
    }
  }

  // ----- Names -----

  /** A scope install that has found no record of the name and goes on to insert one. */
  predicate PassedFor(pc: Pc, name: string)
  {
    match pc
    case ScopeName(r, k) => name in r.fullNames[..if k < |r.fullNames| then k else |r.fullNames|]
    case ScopeInsert(r) => name in r.fullNames
    case _ => false
  }

  function ForName(name: string): Pc -> bool
  {
    pc => PassedFor(pc, name)
  }

  predicate NameInv(c: Setting, s: State, name: string)
  {
    && |Threads(s.threads, InFlight)| <= c.calls
    && Count(Items(s.w, c.user), ByName(name)) + |Threads(s.threads, ForName(name))| <= c.calls
  }

  lemma StepNames(c: Setting, w: World, pc: Pc, writeOk: bool, name: string)
    requires !pc.UserInsert?
    ensures var before := Count(Items(w, c.user), ByName(name));
      var after := Count(Items(StepCall(c, w, pc, writeOk).0, c.user), ByName(name));
      after == before || (pc.ScopeInsert? && PassedFor(pc, name) && after == before + 1)
    ensures PassedFor(StepCall(c, w, pc, writeOk).1, name) ==>
              PassedFor(pc, name) || Count(Items(w, c.user), ByName(name)) == 0
    ensures pc.ScopeInsert? ==> StepCall(c, w, pc, writeOk).1.Done?
  {
    StepItems(c, w, pc, writeOk);
    if Appended(pc).Some? {
      SelectAppend(Items(w, c.user), Appended(pc).value, ByName(name));
    }
    if pc.ScopeName? && pc.k < |pc.record.fullNames| {
      var r, k := pc.record, pc.k;
      assert r.fullNames[..k + 1] == r.fullNames[..k] + [r.fullNames[k]];
      if FindRecord(w, c.user, ByName(r.fullNames[k])).None? {
        NoneFound(Items(w, c.user), ByName(r.fullNames[k]));
      }
    }
    if pc.ScopeName? && pc.k >= |pc.record.fullNames| {
      assert pc.record.fullNames[..|pc.record.fullNames|] == pc.record.fullNames;
    }
  }

  lemma PassedInFlight(threads: map<int, Pc>, name: string)
    ensures Threads(threads, ForName(name)) <= Threads(threads, InFlight)
  {
    forall t | t in Threads(threads, ForName(name)) ensures t in Threads(threads, InFlight) {
      assert ForName(name)(threads[t]) && PassedFor(threads[t], name) && InFlight(threads[t]);
    }
  }

  lemma StepKeepsNames(c: Setting, s: State, t: int, writeOk: bool, name: string)
    requires NameInv(c, s, name) && !PcOf(s, t).Done? && !PcOf(s, t).UserInsert?
    ensures NameInv(c, Next(c, s, Step(t, writeOk)), name)
  {
    var pc := PcOf(s, t);
    var next := StepCall(c, s.w, pc, writeOk).1;
    StepNames(c, s.w, pc, writeOk, name);
    assert ForName(name)(next) <==> PassedFor(next, name);
    assert ForName(name)(pc) <==> PassedFor(pc, name);
    PassedInFlight(s.threads[t := next], name);
    ThreadsUpdate(s.threads, t, next, InFlight);
    ThreadsUpdate(s.threads, t, next, ForName(name));
    assert t in Threads(s.threads, ForName(name)) <==> PassedFor(pc, name);
    assert t in Threads(s.threads, InFlight);
    hide Items, StepCall, Threads, PassedFor, ForName, Count;
    CountedSubset(Threads(s.threads[t := next], ForName(name)), Threads(s.threads[t := next], InFlight));
  }

  predicate NoUserInstall(s: State)
  {
    forall t :: t in s.threads ==> !s.threads[t].UserCount? && !s.threads[t].UserInsert?
  }

  lemma NextKeepsNames(c: Setting, s: State, a: Action, name: string)
    requires NameInv(c, s, name) && NoUserInstall(s) && Enabled(c, s, a)
    requires !a.Update? && !(a.Begin? && a.pc.UserCount?)
    ensures NameInv(c, Next(c, s, a), name) && NoUserInstall(Next(c, s, a))
  {
    hide Items, DeleteRecord, Count, Threads;
    match a {
      case Begin(t, pc) =>
        ThreadsUpdate(s.threads, t, pc, InFlight);
        ThreadsUpdate(s.threads, t, pc, ForName(name));
      case Step(t, writeOk) =>
        StepKeepsNames(c, s, t, writeOk, name);
      case GiveUp(t) =>
        ThreadsUpdate(s.threads, t, Done, InFlight);
        ThreadsUpdate(s.threads, t, Done, ForName(name));
      case Delete(key, writeOk) =>
        DeleteItems(s.w, c.user, key, writeOk);
        DeleteCount(Items(s.w, c.user), key, ByName(name));
    }
  }

  /** Scope installs alone never record a name more often than there are calls in flight. */
  lemma {:induction false} NamesUnderConcurrency(c: Setting, s: State, run: seq<Action>, name: string)
    requires NameInv(c, s, name) && NoUserInstall(s) && IsRun(c, s, run)
    requires forall a :: a in run ==> !a.Update? && !(a.Begin? && a.pc.UserCount?)
    ensures NameInv(c, Final(c, s, run), name)
    decreases |run|
  {
    hide NameInv, NoUserInstall, Enabled, Next;
    if run != [] {
      assert run[0] in run && forall a :: a in run[1..] ==> a in run;
      NextKeepsNames(c, s, run[0], name);
      NamesUnderConcurrency(c, Next(c, s, run[0]), run[1..], name);
    }
  }

  // ----- Both bounds are met -----

  lemma {:induction false} Chain(c: Setting, s: State, run: seq<Action>, more: seq<Action>)
    requires IsRun(c, s, run) && IsRun(c, Final(c, s, run), more)
    ensures IsRun(c, s, run + more) && Final(c, s, run + more) == Final(c, Final(c, s, run), more)
    decreases |run|
  {
    if run == [] {
      assert run + more == more;
    } else {
      assert (run + more)[1..] == run[1..] + more;
      Chain(c, Next(c, s, run[0]), run[1..], more);
    }
  }

  lemma Extend(c: Setting, s: State, run: seq<Action>, a: Action)
    requires IsRun(c, s, run) && Enabled(c, Final(c, s, run), a)
    ensures IsRun(c, s, run + [a]) && Final(c, s, run + [a]) == Next(c, Final(c, s, run), a)
  {
    var end := Final(c, s, run);
    assert [a][1..] == [] && Final(c, Next(c, end, a), []) == Next(c, end, a);
    Chain(c, s, run, [a]);
  }

  /** A record that would pass every check made before its insert. */
  predicate Passes(c: Setting, w: World, r: Record)
  {
    && |Items(w, c.user)| < Max(c)
    && r.fullNames != []
    && FindRecord(w, c.user, ByUrl(r.srcPath)).None?
    && forall n :: n in r.fullNames ==> FindRecord(w, c.user, ByName(n)).None?
  }

  lemma StepPasses(c: Setting, w: World, r: Record, pc: Pc)
    requires Passes(c, w, r)
    ensures StepCall(c, w, ScopeUrl(r), true) == (w, ScopeCount(r))
    ensures StepCall(c, w, ScopeCount(r), true) == (w, ScopeName(r, 0))
    ensures forall k: nat :: k < |r.fullNames| ==> StepCall(c, w, ScopeName(r, k), true) == (w, ScopeName(r, k + 1))
    ensures StepCall(c, w, ScopeName(r, |r.fullNames|), true) == (w, ScopeInsert(r))
  {
    hide Items, FindRecord;
    assert forall k :: 0 <= k < |r.fullNames| ==> r.fullNames[k] in r.fullNames;
  }

  lemma StepThread(c: Setting, s: State, t: int, pc: Pc)
    requires t in s.threads && !s.threads[t].Done? && StepCall(c, s.w, s.threads[t], true) == (s.w, pc)
    ensures Enabled(c, s, Step(t, true)) && Next(c, s, Step(t, true)) == State(s.w, s.threads[t := pc])
  {
  }

  /** An install can get as far as its insert. */
  lemma ReachInsert(c: Setting, s: State, t: int, r: Record) returns (run: seq<Action>)
    requires Passes(c, s.w, r) && PcOf(s, t).Done? && |Threads(s.threads, InFlight)| < c.calls
    ensures IsRun(c, s, run) && Final(c, s, run) == State(s.w, s.threads[t := ScopeInsert(r)])
  {
    StepPasses(c, s.w, r, Done);
    assert IsRun(c, s, []) && Final(c, s, []) == s;
    hide StepCall, Passes, Threads, IsRun, Final;
    var m := s.threads;
    run := [Begin(t, ScopeUrl(r))];
    Extend(c, s, [], run[0]);
    assert [] + run == run;
    run := Advance(c, s, run, t, ScopeUrl(r), ScopeCount(r));
    run := Advance(c, s, run, t, ScopeCount(r), ScopeName(r, 0));
    var k := 0;
    while k < |r.fullNames|
      invariant 0 <= k <= |r.fullNames|
      invariant IsRun(c, s, run) && Final(c, s, run) == State(s.w, m[t := ScopeName(r, k)])
    {
      run := Advance(c, s, run, t, ScopeName(r, k), ScopeName(r, k + 1));
      k := k + 1;
    }
    run := Advance(c, s, run, t, ScopeName(r, k), ScopeInsert(r));
  }

  /** Extend a run by a step of t that leaves the store alone. */
  lemma Advance(c: Setting, s: State, run: seq<Action>, t: int, from: Pc, to: Pc) returns (longer: seq<Action>)
    requires IsRun(c, s, run) && Final(c, s, run) == State(s.w, s.threads[t := from])
    requires !from.Done? && StepCall(c, s.w, from, true) == (s.w, to)
    ensures IsRun(c, s, longer) && Final(c, s, longer) == State(s.w, s.threads[t := to])
  {
    var here := State(s.w, s.threads[t := from]);
    StepThread(c, here, t, to);
    longer := run + [Step(t, true)];
    Extend(c, s, run, Step(t, true));
    assert s.threads[t := from][t := to] == s.threads[t := to];
  }

  /** Call t is about to insert r with the t-th path, and no other call is in flight. */
  predicate Poised(threads: map<int, Pc>, paths: seq<string>, n: nat, r: Record)
    requires n <= |paths|
  {
    && (forall t :: 0 <= t < n ==> t in threads && threads[t] == ScopeInsert(r.(fontPath := paths[t])))
    && (forall t :: t in threads && InFlight(threads[t]) ==> 0 <= t < n)
  }

  lemma {:induction false} UpTo(n: nat) returns (s: set<int>)
    ensures |s| == n && forall t :: t in s <==> 0 <= t < n
  {
    if n == 0 {
      s := {};
    } else {
      s := UpTo(n - 1);
      s := s + {n - 1};
    }
  }

  lemma PoisedCount(threads: map<int, Pc>, paths: seq<string>, n: nat, r: Record)
    requires n <= |paths| && Poised(threads, paths, n, r)
    ensures |Threads(threads, InFlight)| == n
  {
    var s := UpTo(n);
    forall t ensures t in Threads(threads, InFlight) <==> t in s {
      assert t in threads ==> (t in Threads(threads, InFlight) <==> InFlight(threads[t]));
    }
    assert Threads(threads, InFlight) == s;
  }

  /** The path a record is copied to plays no part in its checks. */
  lemma AnyPathPasses(c: Setting, w: World, r: Record, path: string)
    requires Passes(c, w, r)
    ensures Passes(c, w, r.(fontPath := path))
  {
    hide FindRecord, Items;
  }

  lemma Gather(c: Setting, s: State, paths: seq<string>, r: Record) returns (run: seq<Action>)
    requires Resting(s) && Passes(c, s.w, r) && |paths| == c.calls
    ensures IsRun(c, s, run) && Final(c, s, run).w == s.w && Poised(Final(c, s, run).threads, paths, c.calls, r)
  {
    run := [];
    assert Poised(s.threads, paths, 0, r) by {
      assert forall t :: t in s.threads && InFlight(s.threads[t]) ==> t in Threads(s.threads, InFlight);
    }
    assert IsRun(c, s, []) && Final(c, s, []) == s;
    hide Passes, IsRun, Final, Threads;
    var n := 0;
    while n < c.calls
      invariant 0 <= n <= c.calls
      invariant IsRun(c, s, run) && Final(c, s, run).w == s.w && Poised(Final(c, s, run).threads, paths, n, r)
    {
      var here := Final(c, s, run);
      PoisedCount(here.threads, paths, n, r);
      assert PcOf(here, n).Done?;
      assert Passes(c, here.w, r.(fontPath := paths[n])) by { AnyPathPasses(c, here.w, r, paths[n]); }
      var more := ReachInsert(c, here, n, r.(fontPath := paths[n]));
      Chain(c, s, run, more);
      run := run + more;
      n := n + 1;
    }
  }

  lemma InsertOne(c: Setting, w: World, r: Record)
    requires HasArray(ConfigOf(w, c.user))
    ensures var w2 := StepCall(c, w, ScopeInsert(r), true).0;
      && HasArray(ConfigOf(w2, c.user))
      && Items(w2, c.user) == Items(w, c.user) + [ConstructScopeItem(r)]
      && (r.srcPath != "" ==>
            Count(Items(w2, c.user), ByUrl(r.srcPath)) == Count(Items(w, c.user), ByUrl(r.srcPath)) + 1)
  {
    SelectAppend(Items(w, c.user), ConstructScopeItem(r), ByUrl(r.srcPath));
  }

  lemma {:induction false} InsertAll(c: Setting, s: State, paths: seq<string>, n: nat, r: Record) returns (run: seq<Action>)
    requires n <= |paths| && HasArray(ConfigOf(s.w, c.user)) && Poised(s.threads, paths, n, r) && r.srcPath != ""
    ensures IsRun(c, s, run)
    ensures var end := Final(c, s, run).w;
      && |Items(end, c.user)| == |Items(s.w, c.user)| + n
      && (forall it :: it in Items(s.w, c.user) ==> it in Items(end, c.user))
      && (forall t :: 0 <= t < n ==> ConstructScopeItem(r.(fontPath := paths[t])) in Items(end, c.user))
      && Count(Items(end, c.user), ByUrl(r.srcPath)) == Count(Items(s.w, c.user), ByUrl(r.srcPath)) + n
    decreases n
  {
    if n == 0 {
      run := [];
    } else {
      var a := Step(n - 1, true);
      var mine := r.(fontPath := paths[n - 1]);
      InsertOne(c, s.w, mine);
      var next := Next(c, s, a);
      assert next == State(StepCall(c, s.w, ScopeInsert(mine), true).0, s.threads[n - 1 := Done]);
      assert ConstructScopeItem(mine) in Items(next.w, c.user);
      hide StepCall, Items, Count, ConfigOf, ConstructScopeItem;
      run := InsertAll(c, next, paths, n - 1, r);
      assert ([a] + run)[1..] == run;
      run := [a] + run;
    }
  }

  /**
    Both bounds are met: from one record below the limit, installs of one new url, each copied to a
    path of its own, that all pass their checks before any inserts end with c.calls - 1 records too
    many, all c.calls of them for that url.
   */
  lemma BoundsAreMet(c: Setting, s: State, paths: seq<string>, r: Record) returns (run: seq<Action>)
    requires Resting(s) && HasArray(ConfigOf(s.w, c.user)) && |Items(s.w, c.user)| == Max(c) - 1
    requires Passes(c, s.w, r) && r.srcPath != ""
    requires |paths| == c.calls && forall i, j :: 0 <= i < j < |paths| ==> paths[i] != paths[j]
    ensures IsRun(c, s, run)
    ensures var end := Final(c, s, run).w;
      && |Items(end, c.user)| == Max(c) - 1 + c.calls && Count(Items(end, c.user), ByUrl(r.srcPath)) == c.calls
      && forall t :: 0 <= t < c.calls ==> ConstructScopeItem(r.(fontPath := paths[t])) in Items(end, c.user)
  {
    NoneFound(Items(s.w, c.user), ByUrl(r.srcPath));
    hide Passes, IsRun, Final, Items, Count, ConfigOf;
    run := Gather(c, s, paths, r);
    var more := InsertAll(c, Final(c, s, run), paths, c.calls, r);
    Chain(c, s, run, more);
    run := run + more;
  }
}
