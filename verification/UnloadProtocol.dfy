/**
  When the service unloads itself. Calls, client deaths, migration tasks and unload tasks run on
  their own threads; each atomic read, write or queue operation is one step, and steps of
  different threads interleave freely.
 */
module UnloadProtocol {

  /** Where NotifyClientDied and AddUnloadFontServiceTask return to. */
  datatype Return = ToEnd | ToCall(checkClients: bool)

  /** When the unload task read the count, the flag and the clients, on the clock of activities. */
  datatype Reads = Reads(count: nat, flag: nat, clients: nat)

  /** The next step of a thread. */
  datatype Pc =
    | CallEntered(checkClients: bool)     // removed the unload task, has not counted itself
    | CallBody(checkClients: bool)
    | CallClaimed(checkClients: bool)     // set the migration flag, has not posted the task
    | CallLeft(checkClients: bool)        // uncounted itself, reads the count next
    | CallLastOut                         // saw count zero, reads the client count next
    | Notify(stage: nat, ret: Return)     // the client-died callback: 1 count, 2 flag, 3 clients
    | Add(stage: nat, ret: Return)        // AddUnload...: 1 count, 2 flag, 3 clients, 4 post
    | MigrationStarted                    // removed the unload task, enters the manager next
    | ManagerBody                         // holds the manager's own flag
    | ManagerTail                         // cleared it, has not returned
    | MigrationReturned                   // clears the server flag next
    | Unloading(stage: nat, seen: Reads) // the unload task: 1 count, 2 flag, 3 clients, 4 unload
    | Done

  /** The atomics, the registry and the handler queue. */
  datatype Shared = Shared(
    callingCount: int,
    migrating: bool,                      // isDataMigrationing_ of the server
    managerBusy: bool,                    // isDataMigrationing_ of the manager
    clients: set<int>,
    unloadQueued: nat,
    migrationQueued: nat,
    starts: nat,                          // the clock: how many activities have begun
    countedAt: map<int, nat>,             // when each thread last counted its call
    claimedAt: nat,                       // when the flag was last set
    releasedAt: nat,                      // the clock when the flag was last cleared
    joinedAt: map<int, nat>,              // when each client last registered
    attempted: bool,                      // an unload was attempted since the last activity began
    postFailed: bool)                     // posting an unload task has failed since then

  datatype State = State(shared: Shared, threads: map<int, Pc>)

  datatype Action =
    | StartCall(t: int, checkClients: bool)
    | CountCall(t: int)
    | RegisterClient(t: int, token: int)
    | UnregisterClient(t: int, token: int)
    | ClaimMigration(t: int)
    | PostMigration(t: int, ok: bool)
    | LeaveCall(t: int)
    | ReadOnExit(t: int)
    | ClientDies(t: int, token: int)
    | StepNotify(t: int)
    | StepAdd(t: int, ok: bool)
    | StartMigrationTask(t: int)
    | EnterManager(t: int)
    | ClearManager(t: int)
    | ReturnFromManager(t: int)
    | ClearMigration(t: int)
    | StartUnloadTask(t: int)
    | StepUnload(t: int)

  function PcOf(s: State, t: int): Pc
  {
    if t in s.threads then s.threads[t] else Done
  }

  predicate CanStep(m: Shared, pc: Pc, a: Action)
  {
    match a
    case StartCall(_, _) => pc.Done?
    case CountCall(_) => pc.CallEntered?
    case RegisterClient(_, token) => pc.CallBody? && token !in m.clients
    case UnregisterClient(_, token) => pc.CallBody? && token in m.clients
    case ClaimMigration(_) => pc.CallBody? && !m.migrating
    case PostMigration(_, _) => pc.CallClaimed?
    case LeaveCall(_) => pc.CallBody?
    case ReadOnExit(_) => pc.CallLeft? || pc.CallLastOut?
    case ClientDies(_, token) => pc.Done? && token in m.clients
    case StepNotify(_) => pc.Notify?
    case StepAdd(_, _) => pc.Add?
    case StartMigrationTask(_) => pc.Done? && m.migrationQueued > 0
    case EnterManager(_) => pc.MigrationStarted?
    case ClearManager(_) => pc.ManagerBody?
    case ReturnFromManager(_) => pc.ManagerTail?
    case ClearMigration(_) => pc.MigrationReturned?
    case StartUnloadTask(_) => pc.Done? && m.unloadQueued > 0
    case StepUnload(_) => pc.Unloading?
  }

  /** An activity begins or ends: any earlier unload attempt, or failure to queue one, no longer counts. */
  function Forget(m: Shared): Shared
  {
    m.(attempted := false, postFailed := false)
  }

  function Begin(m: Shared): Shared
  {
    Forget(m.(starts := m.starts + 1))
  }

  function Release(m: Shared): Shared
  {
    m.(migrating := false, releasedAt := m.starts)
  }

  function ReadNow(seen: Reads, stage: nat, now: nat): Reads
  {
    if stage == 1 then seen.(count := now)
    else if stage == 2 then seen.(flag := now)
    else seen.(clients := now)
  }

  function After(ret: Return): Pc
  {
    match ret
    case ToEnd => Done
    case ToCall(check) => CallBody(check)
  }

  /** The test made at a stage of the callback, of AddUnload... and of the unload task. */
  predicate SeesBusy(m: Shared, stage: nat)
  {
    if stage == 1 then m.callingCount != 0
    else if stage == 2 then m.migrating
    else if stage == 3 then m.clients != {}
    else false
  }

  /** One step of a thread at `pc`: the shared state and the thread's next step. */
  function Step(m: Shared, pc: Pc, a: Action): (Shared, Pc)
    requires CanStep(m, pc, a)
  {
    match a
    case StartCall(_, check) => (Forget(m.(unloadQueued := 0)), CallEntered(check))
    case CountCall(t) =>
      (Begin(m.(callingCount := m.callingCount + 1, countedAt := m.countedAt[t := m.starts + 1])), CallBody(pc.checkClients))
    case RegisterClient(_, token) =>
      (Begin(m.(clients := m.clients + {token}, joinedAt := m.joinedAt[token := m.starts + 1])), pc)
    case UnregisterClient(_, token) =>
      (m.(clients := m.clients - {token}), Notify(1, ToCall(pc.checkClients)))
    case ClaimMigration(_) => (Begin(m.(migrating := true, claimedAt := m.starts + 1)), CallClaimed(pc.checkClients))
    case PostMigration(_, ok) =>
      (if ok then m.(migrationQueued := m.migrationQueued + 1) else Release(m), CallBody(pc.checkClients))
    case LeaveCall(_) => (m.(callingCount := m.callingCount - 1), CallLeft(pc.checkClients))
    case ReadOnExit(_) =>
      (m, if pc.CallLeft? && m.callingCount != 0 then Done
          else if pc.CallLeft? && pc.checkClients then CallLastOut
          else if pc.CallLastOut? && m.clients != {} then Done
          else Add(1, ToEnd))
    case ClientDies(_, token) => (Forget(m.(clients := m.clients - {token})), Notify(1, ToEnd))
    case StepNotify(_) =>
      (m, if SeesBusy(m, pc.stage) then After(pc.ret)
          else if pc.stage < 3 then Notify(pc.stage + 1, pc.ret) else Add(1, pc.ret))
    case StepAdd(_, ok) =>
      if SeesBusy(m, pc.stage) then (m, After(pc.ret))
      else if pc.stage < 4 then (m, Add(pc.stage + 1, pc.ret))
      else (if ok then m.(unloadQueued := m.unloadQueued + 1) else m.(postFailed := true), After(pc.ret))
    case StartMigrationTask(_) =>
      (m.(migrationQueued := m.migrationQueued - 1, unloadQueued := 0), MigrationStarted)
    case EnterManager(_) =>
      if m.managerBusy then (m, MigrationReturned) else (m.(managerBusy := true), ManagerBody)
    case ClearManager(_) => (m.(managerBusy := false), ManagerTail)
    case ReturnFromManager(_) => (m, MigrationReturned)
    case ClearMigration(_) => (Release(m), Add(1, ToEnd))
    case StartUnloadTask(_) => (m.(unloadQueued := m.unloadQueued - 1), Unloading(1, Reads(0, 0, 0)))
    case StepUnload(_) =>
      if SeesBusy(m, pc.stage) then (m, Done)
      else if pc.stage < 4 then (m, Unloading(pc.stage + 1, ReadNow(pc.seen, pc.stage, m.starts)))
      else (m.(attempted := true), Done)
  }

  predicate Enabled(s: State, a: Action)
  {
    CanStep(s.shared, PcOf(s, a.t), a)
  }

  function Next(s: State, a: Action): State
    requires Enabled(s, a)
  {
    var (m, pc) := Step(s.shared, PcOf(s, a.t), a);
    State(m, s.threads[a.t := pc])
  }

  /** After OnStart set the callback: its own thread (here 0) runs AddUnload... first. */
  const START := State(Shared(0, false, false, {}, 0, 0, 0, map[], 0, 0, map[], false, false), map[0 := Add(1, ToEnd)])

  predicate IsRun(s: State, run: seq<Action>)
    decreases |run|
  {
    run != [] ==> Enabled(s, run[0]) && IsRun(Next(s, run[0]), run[1..])
  }

  function Final(s: State, run: seq<Action>): State
    requires IsRun(s, run)
    decreases |run|
  {
    if run == [] then s else Final(Next(s, run[0]), run[1..])
  }

  // ----- Invariants -----

  predicate Idle(m: Shared)
  {
    m.callingCount == 0 && !m.migrating && m.clients == {}
  }

  /** No thread is midway through entry, body, migration or release code. */
  predicate Quiet(s: State)
  {
    forall t :: t in s.threads ==> s.threads[t].Done?
  }

  predicate IsCounted(pc: Pc)
  {
    pc.CallBody? || pc.CallClaimed? || ((pc.Notify? || pc.Add?) && pc.ret.ToCall?)
  }

  function Counted(threads: map<int, Pc>): set<int>
  {
    set t | t in threads && IsCounted(threads[t])
  }

  predicate HoldsFlag(pc: Pc)
  {
    pc.CallClaimed? || pc.MigrationStarted? || pc.ManagerBody? || pc.ManagerTail? || pc.MigrationReturned?
  }

  /** The calls that hold the flag before posting, and the migration tasks that run. */
  function Holders(threads: map<int, Pc>): set<int>
  {
    set t | t in threads && HoldsFlag(threads[t])
  }

  /** Thread t is a counted call that was counted after clock `since`. */
  predicate CountedAfter(s: State, t: int, since: nat)
  {
    t in s.threads && IsCounted(s.threads[t]) && t in s.shared.countedAt && s.shared.countedAt[t] > since
  }

  predicate CallsAfter(s: State, since: nat)
  {
    since <= s.shared.starts && forall t :: t in s.threads && IsCounted(s.threads[t]) ==> CountedAfter(s, t, since)
  }

  predicate ClientsAfter(m: Shared, since: nat)
  {
    since <= m.starts && forall c :: c in m.clients ==> c in m.joinedAt && m.joinedAt[c] > since
  }

  predicate FlagAfter(m: Shared, since: nat)
  {
    since <= m.starts && (m.migrating ==> m.claimedAt > since)
  }

  /** Whatever is active now began after the unload task looked for it. */
  predicate UnloadKnows(s: State, pc: Pc)
  {
    pc.Unloading? ==>
      && (pc.stage >= 2 ==> CallsAfter(s, pc.seen.count))
      && (pc.stage >= 3 ==> FlagAfter(s.shared, pc.seen.flag))
      && (pc.stage >= 4 ==> ClientsAfter(s.shared, pc.seen.clients))
  }

  predicate StampsInv(m: Shared)
  {
    m.releasedAt <= m.starts && m.claimedAt <= m.starts && (m.migrating <==> m.claimedAt > m.releasedAt)
  }

  predicate StagesOk(pc: Pc)
  {
    && (pc.Notify? ==> 1 <= pc.stage <= 3)
    && (pc.Add? || pc.Unloading? ==> 1 <= pc.stage <= 4)
  }

  predicate CountInv(s: State)
  {
    s.shared.callingCount == |Counted(s.threads)|
  }

  /** The server flag is set exactly while one call holds it or one migration task is queued or running. */
  predicate FlagInv(s: State)
  {
    |Holders(s.threads)| + s.shared.migrationQueued == Bit(s.shared.migrating)
  }

  predicate ManagerInv(s: State)
  {
    s.shared.managerBusy <==> exists t :: t in s.threads && s.threads[t].ManagerBody?
  }

  predicate ThreadsInv(s: State)
  {
    forall t :: t in s.threads ==> StagesOk(s.threads[t]) && UnloadKnows(s, s.threads[t])
  }

  predicate Covered(m: Shared)
  {
    m.unloadQueued > 0 || m.attempted || m.postFailed
  }

  /** An idle service with no thread underway has an unload queued or attempted. */
  predicate NoLostUnload(s: State)
  {
    Idle(s.shared) && Quiet(s) ==> Covered(s.shared)
  }

  predicate Inv(s: State)
  {
    CountInv(s) && FlagInv(s) && ManagerInv(s) && StampsInv(s.shared) && ThreadsInv(s) && NoLostUnload(s)
  }

  function Bit(b: bool): int
  {
    if b then 1 else 0
  }

  lemma SetStep(prev: set<int>, next: set<int>, t: int)
    ensures next == prev + {t} && t !in prev ==> |next| == |prev| + 1
    ensures next == prev - {t} && t in prev ==> |next| == |prev| - 1
  {
    if next == prev - {t} && t in prev {
      assert prev == next + {t};
    }
  }

  lemma CountedStep(threads: map<int, Pc>, t: int, pc: Pc)
    ensures var before, after := t in threads && IsCounted(threads[t]), IsCounted(pc);
            |Counted(threads[t := pc])|
            == |Counted(threads)| + (if after then 1 else 0) - (if before then 1 else 0)
  {
    hide IsCounted;
    var next := threads[t := pc];
    var before, after := t in threads && IsCounted(threads[t]), IsCounted(pc);
    assert t in Counted(threads) <==> before;
    if after {
      assert Counted(next) == Counted(threads) + {t};
    } else {
      assert Counted(next) == Counted(threads) - {t};
    }
    assert before && after ==> Counted(next) == Counted(threads);
    assert !before && !after ==> Counted(next) == Counted(threads);
    SetStep(Counted(threads), Counted(next), t);
  }

  lemma HoldersStep(threads: map<int, Pc>, t: int, pc: Pc)
    ensures var before, after := t in threads && HoldsFlag(threads[t]), HoldsFlag(pc);
            |Holders(threads[t := pc])|
            == |Holders(threads)| + (if after then 1 else 0) - (if before then 1 else 0)
  {
    hide HoldsFlag;
    var next := threads[t := pc];
    var before, after := t in threads && HoldsFlag(threads[t]), HoldsFlag(pc);
    assert t in Holders(threads) <==> before;
    if after {
      assert Holders(next) == Holders(threads) + {t};
    } else {
      assert Holders(next) == Holders(threads) - {t};
    }
    assert before && after ==> Holders(next) == Holders(threads);
    assert !before && !after ==> Holders(next) == Holders(threads);
    SetStep(Holders(threads), Holders(next), t);
  }

  lemma TwoHolders(threads: map<int, Pc>, t: int, u: int)
    requires t in Holders(threads) && u in Holders(threads) && |Holders(threads)| <= 1
    ensures t == u
  {
    hide Holders;
    var rest := Holders(threads) - {t};
    SetStep(Holders(threads), rest, t);
    assert u != t ==> u in rest;
  }

  lemma CountDelta(m: Shared, pc: Pc, a: Action)
    requires CanStep(m, pc, a)
    ensures var (n, next) := Step(m, pc, a);
            n.callingCount - m.callingCount == Bit(IsCounted(next)) - Bit(IsCounted(pc))
  {
  }

  lemma FlagDelta(m: Shared, pc: Pc, a: Action)
    requires CanStep(m, pc, a) && (HoldsFlag(pc) ==> m.migrating)
    ensures var (n, next) := Step(m, pc, a);
            Bit(n.migrating) - Bit(m.migrating)
            == Bit(HoldsFlag(next)) - Bit(HoldsFlag(pc)) + (n.migrationQueued - m.migrationQueued)
  {
  }

  lemma CountStep(s: State, a: Action)
    requires CountInv(s) && Enabled(s, a)
    ensures CountInv(Next(s, a))
  {
    hide Counted, Step, IsCounted, CanStep;
    DoneIsFree();
    CountDelta(s.shared, PcOf(s, a.t), a);
    CountedStep(s.threads, a.t, Step(s.shared, PcOf(s, a.t), a).1);
  }

  lemma DoneIsFree()
    ensures !IsCounted(Done) && !HoldsFlag(Done) && StagesOk(Done)
  {
  }

  /** A counted thread keeps the count positive, so the client-died callback of a call posts nothing. */
  lemma CallIsCounted(s: State, t: int)
    requires CountInv(s) && t in s.threads && IsCounted(s.threads[t])
    ensures s.shared.callingCount >= 1
  {
    assert t in Counted(s.threads);
    SetStep(Counted(s.threads), Counted(s.threads) - {t}, t);
  }

  lemma FlagStep(s: State, a: Action)
    requires FlagInv(s) && Enabled(s, a)
    ensures FlagInv(Next(s, a))
  {
    hide Holders, Step, HoldsFlag, CanStep, IsCounted;
    DoneIsFree();
    if HoldsFlag(PcOf(s, a.t)) {
      HolderMeansFlag(s, a.t);
    }
    FlagDelta(s.shared, PcOf(s, a.t), a);
    HoldersStep(s.threads, a.t, Step(s.shared, PcOf(s, a.t), a).1);
  }

  /** Whoever holds the server flag holds it alone, and no migration task waits. */
  lemma HolderMeansFlag(s: State, t: int)
    requires FlagInv(s) && t in s.threads && HoldsFlag(s.threads[t])
    ensures s.shared.migrating && s.shared.migrationQueued == 0
    ensures forall u :: u in s.threads && HoldsFlag(s.threads[u]) ==> u == t
  {
    hide HoldsFlag;
    assert t in Holders(s.threads);
    SetStep(Holders(s.threads), Holders(s.threads) - {t}, t);
    forall u | u in s.threads && HoldsFlag(s.threads[u]) ensures u == t {
      assert u in Holders(s.threads);
      TwoHolders(s.threads, t, u);
    }
  }

  lemma ManagerDelta(m: Shared, pc: Pc, a: Action)
    requires CanStep(m, pc, a) && (pc.MigrationStarted? ==> !m.managerBusy) && (pc.ManagerBody? ==> m.managerBusy)
    ensures var (n, next) := Step(m, pc, a);
            Bit(n.managerBusy) - Bit(m.managerBusy) == Bit(next.ManagerBody?) - Bit(pc.ManagerBody?)
  {
  }

  /** Only the one holder of the server flag can be in the manager. */
  lemma ManagerAlone(s: State, t: int)
    requires ManagerInv(s) && FlagInv(s) && t in s.threads && HoldsFlag(s.threads[t])
    ensures s.shared.managerBusy <==> s.threads[t].ManagerBody?
  {
    hide Holders, FlagInv;
    HolderMeansFlag(s, t);
    assert forall u :: u in s.threads && s.threads[u].ManagerBody? ==> HoldsFlag(s.threads[u]);
  }

  lemma ManagerStep(s: State, a: Action)
    requires ManagerInv(s) && FlagInv(s) && Enabled(s, a)
    ensures ManagerInv(Next(s, a))
  {
    hide Step, CanStep, FlagInv;
    var n, pc := Next(s, a), PcOf(s, a.t);
    if HoldsFlag(pc) {
      ManagerAlone(s, a.t);
      HolderMeansFlag(s, a.t);
    }
    ManagerDelta(s.shared, pc, a);
    assert n.threads == s.threads[a.t := PcOf(n, a.t)];
    if n.shared.managerBusy && !n.threads[a.t].ManagerBody? {
      var t :| t in s.threads && s.threads[t].ManagerBody?;
      assert n.threads[t].ManagerBody?;
    }
    forall t | t in n.threads && n.threads[t].ManagerBody? ensures n.shared.managerBusy {
      assert t != a.t ==> s.threads[t].ManagerBody? && HoldsFlag(s.threads[t]);
    }
  }

  /** A call becomes counted only by counting itself, which stamps it with a new clock value. */
  lemma NewlyCounted(m: Shared, pc: Pc, a: Action)
    requires CanStep(m, pc, a)
    ensures var (n, next) := Step(m, pc, a);
            && m.starts <= n.starts
            && (IsCounted(next) ==>
                  if IsCounted(pc) then n.countedAt == m.countedAt
                  else a.CountCall? && n.countedAt == m.countedAt[a.t := n.starts] && n.starts == m.starts + 1)
            && (!IsCounted(next) ==> n.countedAt == m.countedAt)
  {
  }

  lemma CallsAfterStays(s: State, a: Action, since: nat)
    requires CallsAfter(s, since) && Enabled(s, a)
    ensures CallsAfter(Next(s, a), since)
  {
    hide Step, IsCounted, CanStep;
    DoneIsFree();
    NewlyCounted(s.shared, PcOf(s, a.t), a);
  }

  lemma NobodyCounted(s: State)
    requires CountInv(s) && s.shared.callingCount == 0
    ensures CallsAfter(s, s.shared.starts)
  {
    forall t | t in s.threads ensures !IsCounted(s.threads[t]) {
      assert t !in Counted(s.threads);
    }
  }

  /** A flag or a client list read as idle can only have become busy with a later stamp. */
  lemma FlagAfterStays(m: Shared, pc: Pc, a: Action, since: nat)
    requires CanStep(m, pc, a) && FlagAfter(m, since)
    ensures FlagAfter(Step(m, pc, a).0, since)
  {
  }

  lemma ClientsAfterStays(m: Shared, pc: Pc, a: Action, since: nat)
    requires CanStep(m, pc, a) && ClientsAfter(m, since)
    ensures ClientsAfter(Step(m, pc, a).0, since)
  {
  }

  lemma StampsStep(m: Shared, pc: Pc, a: Action)
    requires CanStep(m, pc, a) && StampsInv(m) && (a.ClearMigration? || a.PostMigration? ==> m.migrating)
    ensures StampsInv(Step(m, pc, a).0)
  {
  }

  lemma StampsKept(s: State, a: Action)
    requires StampsInv(s.shared) && FlagInv(s) && Enabled(s, a)
    ensures StampsInv(Next(s, a).shared)
  {
    hide Step, Holders, StampsInv;
    if a.ClearMigration? || a.PostMigration? {
      HolderMeansFlag(s, a.t);
    }
    StampsStep(s.shared, PcOf(s, a.t), a);
  }

  /** A thread's next unload stage: the reads it had, and the one it just made of an idle field. */
  lemma UnloadReads(m: Shared, pc: Pc, a: Action)
    requires CanStep(m, pc, a) && StagesOk(pc)
    ensures var (n, next) := Step(m, pc, a);
            && StagesOk(next)
            && (next.Unloading? && !a.StartUnloadTask? ==>
                  && pc.Unloading? && next.stage == pc.stage + 1 && n == m
                  && next.seen == ReadNow(pc.seen, pc.stage, m.starts) && !SeesBusy(m, pc.stage))
            && (a.StartUnloadTask? ==> next.Unloading? && next.stage == 1)
  {
  }

  lemma KnowledgeStays(s: State, a: Action, other: Pc)
    requires Enabled(s, a) && UnloadKnows(s, other)
    ensures UnloadKnows(Next(s, a), other)
  {
    hide Step, CanStep, CallsAfter, FlagAfter, ClientsAfter;
    if other.Unloading? {
      if other.stage >= 2 {
        CallsAfterStays(s, a, other.seen.count);
      }
      if other.stage >= 3 {
        FlagAfterStays(s.shared, PcOf(s, a.t), a, other.seen.flag);
      }
      if other.stage >= 4 {
        ClientsAfterStays(s.shared, PcOf(s, a.t), a, other.seen.clients);
      }
    }
  }

  lemma KnowledgeGrows(s: State, a: Action)
    requires Enabled(s, a) && CountInv(s) && StagesOk(PcOf(s, a.t)) && UnloadKnows(s, PcOf(s, a.t))
    ensures StagesOk(PcOf(Next(s, a), a.t)) && UnloadKnows(Next(s, a), PcOf(Next(s, a), a.t))
  {
    var pc, next := PcOf(s, a.t), PcOf(Next(s, a), a.t);
    UnloadReads(s.shared, pc, a);
    hide Step, CanStep;
    if next.Unloading? && !a.StartUnloadTask? {
      KnowledgeStays(s, a, pc);
      if pc.stage == 1 {
        NobodyCounted(s);
        CallsAfterStays(s, a, s.shared.starts);
      }
    }
  }

  lemma ThreadsStep(s: State, a: Action)
    requires ThreadsInv(s) && CountInv(s) && Enabled(s, a)
    ensures ThreadsInv(Next(s, a))
  {
    hide Step, UnloadKnows, StagesOk, CountInv, IsCounted, Counted, CanStep;
    DoneKnows(s);
    KnowledgeGrows(s, a);
    forall t | t in s.threads ensures UnloadKnows(Next(s, a), s.threads[t]) {
      KnowledgeStays(s, a, s.threads[t]);
    }
  }

  lemma DoneKnows(s: State)
    ensures StagesOk(Done) && UnloadKnows(s, Done)
  {
  }

  /**
    A thread ends only where it has just seen activity, posted an unload task, or attempted to
    unload; every other step leaves it underway.
   */
  lemma EndIsCovered(m: Shared, pc: Pc, a: Action)
    requires CanStep(m, pc, a) && StagesOk(pc)
    ensures var (n, next) := Step(m, pc, a);
            next.Done? && Idle(n) ==> Covered(n)
  {
  }

  lemma QuietStep(s: State, a: Action)
    requires Enabled(s, a) && StagesOk(PcOf(s, a.t))
    ensures NoLostUnload(Next(s, a))
  {
    hide Step, CanStep, StagesOk, Covered, Idle;
    EndIsCovered(s.shared, PcOf(s, a.t), a);
    var n := Next(s, a);
    assert a.t in n.threads;
  }

  lemma StepKeepsInv(s: State, a: Action)
    requires Inv(s) && Enabled(s, a)
    ensures Inv(Next(s, a))
  {
    hide CountInv, FlagInv, ManagerInv, StampsInv, NoLostUnload, Next, StagesOk, UnloadKnows, CanStep;
    DoneKnows(s);
    CountStep(s, a);
    FlagStep(s, a);
    ManagerStep(s, a);
    StampsKept(s, a);
    ThreadsStep(s, a);
    QuietStep(s, a);
  }

  lemma StartIsInv()
    ensures Inv(START)
  {
    assert Counted(START.threads) == {} && Holders(START.threads) == {};
    assert START.threads[0] == Add(1, ToEnd);
  }

  lemma {:induction false} RunKeepsInv(s: State, run: seq<Action>)
    requires Inv(s) && IsRun(s, run)
    ensures Inv(Final(s, run))
    decreases |run|
  {
    hide Inv, Next, Enabled;
    if run != [] {
      StepKeepsInv(s, run[0]);
      RunKeepsInv(Next(s, run[0]), run[1..]);
    }
  }

  // ----- Theorems -----

  /** An entering call, and a migration task that starts, take every queued unload away. */
  lemma EntryRemovesUnload(s: State, a: Action)
    requires Enabled(s, a) && (a.StartCall? || a.StartMigrationTask?)
    ensures Next(s, a).shared.unloadQueued == 0
  {
  }

  /** No unload is lost, in any interleaving. */
  lemma UnloadIsNeverLost(run: seq<Action>)
    requires IsRun(START, run) && Idle(Final(START, run).shared) && Quiet(Final(START, run))
    ensures var m := Final(START, run).shared;
            m.unloadQueued > 0 || m.attempted || m.postFailed
  {
    hide Final, IsRun, CountInv, FlagInv, ManagerInv, ThreadsInv;
    StartIsInv();
    RunKeepsInv(START, run);
  }

  /** The manager's body and its tail are never entered twice at once, nor skipped. */
  lemma SingleMigration(run: seq<Action>, t: int, u: int)
    requires IsRun(START, run)
    ensures var s := Final(START, run);
            && (PcOf(s, t).ManagerBody? || PcOf(s, t).ManagerTail? ==>
                  && s.shared.migrating && s.shared.migrationQueued == 0
                  && (PcOf(s, u).ManagerBody? || PcOf(s, u).ManagerTail? ==> u == t))
            && (PcOf(s, t).MigrationStarted? ==>
                  !s.shared.managerBusy && PcOf(Next(s, EnterManager(t)), t).ManagerBody?)
            && (PcOf(s, t).ManagerBody? ==> s.shared.managerBusy)
            && (s.shared.migrating <==> |Holders(s.threads)| + s.shared.migrationQueued == 1)
  {
    hide Final, IsRun, Holders, CountInv, ThreadsInv, NoLostUnload;
    StartIsInv();
    RunKeepsInv(START, run);
    var s := Final(START, run);
    if t in s.threads && HoldsFlag(s.threads[t]) {
      HolderMeansFlag(s, t);
    }
  }

  /** The calling count is exactly the number of calls inside, over every run. */
  lemma CallsAreCounted(run: seq<Action>)
    requires IsRun(START, run)
    ensures var s := Final(START, run);
            s.shared.callingCount == |set t | t in s.threads && IsCounted(s.threads[t])|
  {
    hide Final, IsRun, FlagInv, ManagerInv, ThreadsInv, NoLostUnload;
    StartIsInv();
    RunKeepsInv(START, run);
    var s := Final(START, run);
    assert Counted(s.threads) == set t | t in s.threads && IsCounted(s.threads[t]);
  }

  /**
    When an unload meets activity: as the task is about to unload, the count is non-zero exactly if
    some call inside was counted after the task read the count; the flag is set exactly if it was
    last set after the task read it and not cleared since; and a client is registered exactly if one
    of those registered joined after the task read the clients.
   */
  lemma UnloadMeetsExactly(run: seq<Action>, t: int)
    requires IsRun(START, run) && PcOf(Final(START, run), t).Unloading? && PcOf(Final(START, run), t).stage == 4
    ensures var s := Final(START, run);
            var m, seen := s.shared, PcOf(s, t).seen;
            && (m.callingCount != 0 <==> exists c :: CountedAfter(s, c, seen.count))
            && (m.migrating <==> m.claimedAt > seen.flag && m.claimedAt > m.releasedAt)
            && (m.clients != {} <==> exists c :: c in m.clients && c in m.joinedAt && m.joinedAt[c] > seen.clients)
  {
    hide Final, IsRun, FlagInv, ManagerInv, NoLostUnload;
    StartIsInv();
    RunKeepsInv(START, run);
    var s := Final(START, run);
    assert t in s.threads && UnloadKnows(s, s.threads[t]);
    var m, seen := s.shared, PcOf(s, t).seen;
    assert CallsAfter(s, seen.count) && FlagAfter(m, seen.flag) && ClientsAfter(m, seen.clients) && StampsInv(m);
    hide Inv, UnloadKnows;
    CountExactly(s, seen.count);
    ClientsExactly(m, seen.clients);
  }

  lemma CountExactly(s: State, since: nat)
    requires CountInv(s) && CallsAfter(s, since)
    ensures s.shared.callingCount != 0 <==> exists c :: CountedAfter(s, c, since)
  {
    if s.shared.callingCount != 0 {
      SomeCallInside(s);
    }
    forall c | CountedAfter(s, c, since) ensures s.shared.callingCount >= 1 {
      CallIsCounted(s, c);
    }
  }

  lemma ClientsExactly(m: Shared, since: nat)
    requires ClientsAfter(m, since)
    ensures m.clients != {} <==> exists c :: c in m.clients && c in m.joinedAt && m.joinedAt[c] > since
  {
    assert (forall c :: c !in m.clients) ==> m.clients == {};
  }

  lemma SomeCallInside(s: State)
    requires CountInv(s) && s.shared.callingCount != 0
    ensures exists c :: c in s.threads && IsCounted(s.threads[c])
  {
    hide IsCounted;
    assert (forall c :: c in s.threads ==> !IsCounted(s.threads[c])) ==> Counted(s.threads) == {};
  }

  /** A queued unload task that nothing disturbs unloads an idle service. */
  lemma QuietUnloadHappens(s: State, t: int)
    requires Idle(s.shared) && s.shared.unloadQueued > 0 && PcOf(s, t).Done?
    ensures var run := [StartUnloadTask(t)] + [StepUnload(t)] + [StepUnload(t)] + [StepUnload(t)] + [StepUnload(t)];
            IsRun(s, run) && Final(s, run).shared.attempted
  {
    hide IsRun, Final;
    var a, b := StartUnloadTask(t), StepUnload(t);
    var s1 := Next(s, a);
    var s2 := Next(s1, b);
    var s3 := Next(s2, b);
    var s4 := Next(s3, b);
    var s5 := Next(s4, b);
    assert s5.shared.attempted;
    RunOne(s4, b);
    RunCons(s3, b, [b]);
    RunCons(s2, b, [b] + [b]);
    RunCons(s1, b, [b] + ([b] + [b]));
    RunCons(s, a, [b] + ([b] + ([b] + [b])));
    assert [a] + ([b] + ([b] + ([b] + [b]))) == [a] + [b] + [b] + [b] + [b];
  }

  lemma RunOne(s: State, a: Action)
    requires Enabled(s, a)
    ensures IsRun(s, [a]) && Final(s, [a]) == Next(s, a)
  {
    hide Enabled, Next;
    assert [a][1..] == [];
  }

  lemma RunCons(s: State, a: Action, rest: seq<Action>)
    requires Enabled(s, a) && IsRun(Next(s, a), rest)
    ensures IsRun(s, [a] + rest) && Final(s, [a] + rest) == Final(Next(s, a), rest)
  {
    hide Enabled, Next;
    assert ([a] + rest)[1..] == rest;
  }

  /** The first unload task of a start gets queued. */
  lemma StartQueuesUnload()
    ensures var run := [StepAdd(0, true)] + ([StepAdd(0, true)] + ([StepAdd(0, true)] + [StepAdd(0, true)]));
            && IsRun(START, run)
            && Final(START, run) == State(START.shared.(unloadQueued := 1), map[0 := Done])
  {
    hide IsRun, Final;
    var a := StepAdd(0, true);
    var s1 := Next(START, a);
    var s2 := Next(s1, a);
    var s3 := Next(s2, a);
    assert Next(s3, a) == State(START.shared.(unloadQueued := 1), map[0 := Done]);
    RunOne(s3, a);
    RunCons(s2, a, [a]);
    RunCons(s1, a, [a] + [a]);
    RunCons(START, a, [a] + ([a] + [a]));
  }

  lemma {:induction false} RunChain(s: State, run: seq<Action>, more: seq<Action>)
    requires IsRun(s, run) && IsRun(Final(s, run), more)
    ensures IsRun(s, run + more) && Final(s, run + more) == Final(Final(s, run), more)
    decreases |run|
  {
    hide Enabled, Next;
    if run == [] {
      assert run + more == more;
    } else {
      assert (run + more)[1..] == run[1..] + more;
      RunChain(Next(s, run[0]), run[1..], more);
    }
  }

  /** From an idle service: a call that enters right after the task read the count is inside at the unload. */
  lemma CallAfterTheCount(s: State, t: int, u: int)
    returns (run: seq<Action>)
    requires Idle(s.shared) && s.shared.unloadQueued > 0 && PcOf(s, t).Done? && PcOf(s, u).Done? && t != u
    ensures IsRun(s, run) && Final(s, run).shared.attempted
    ensures Final(s, run).shared.callingCount == 1 && PcOf(Final(s, run), u).CallBody?
  {
    hide IsRun, Final;
    var s1 := Next(s, StartUnloadTask(t));
    var s2 := Next(s1, StepUnload(t));
    assert PcOf(s2, t).Unloading? && PcOf(s2, t).stage == 2 && s2.shared.callingCount == 0;
    var s3 := Next(s2, StartCall(u, false));
    var s4 := Next(s3, CountCall(u));
    run := FinishUnload(s4, t);
    RunCons(s3, CountCall(u), run);
    run := [CountCall(u)] + run;
    RunCons(s2, StartCall(u, false), run);
    run := [StartCall(u, false)] + run;
    RunCons(s1, StepUnload(t), run);
    run := [StepUnload(t)] + run;
    RunCons(s, StartUnloadTask(t), run);
    run := [StartUnloadTask(t)] + run;
  }

  /** The task's last reads and the unload, whatever the count is by then. */
  lemma FinishUnload(s: State, t: int) returns (run: seq<Action>)
    requires PcOf(s, t).Unloading? && PcOf(s, t).stage == 2 && !s.shared.migrating && s.shared.clients == {}
    ensures IsRun(s, run) && Final(s, run).shared == s.shared.(attempted := true)
    ensures Final(s, run).threads == s.threads[t := Done]
  {
    hide IsRun, Final;
    var b := StepUnload(t);
    var s1 := Next(s, b);
    var s2 := Next(s1, b);
    assert Next(s2, b) == State(s.shared.(attempted := true), s.threads[t := Done]);
    RunOne(s2, b);
    RunCons(s1, b, [b]);
    RunCons(s, b, [b] + [b]);
    run := [b] + ([b] + [b]);
  }

  /** It happens: a run of the service in which the unload is attempted while a call is inside. */
  lemma UnloadMeetsACall() returns (run: seq<Action>)
    ensures IsRun(START, run) && Final(START, run).shared.attempted
    ensures Final(START, run).shared.callingCount == 1 && PcOf(Final(START, run), 2).CallBody?
  {
    StartQueuesUnload();
    run := [StepAdd(0, true)] + ([StepAdd(0, true)] + ([StepAdd(0, true)] + [StepAdd(0, true)]));
    var s := State(START.shared.(unloadQueued := 1), map[0 := Done]);
    assert Idle(s.shared) && PcOf(s, 1).Done? && PcOf(s, 2).Done?;
    hide IsRun, Final;
    var more := CallAfterTheCount(s, 1, 2);
    RunChain(START, run, more);
    run := run + more;
  }
}
