/**
  What the unload protocol gets done: every thread ends, nobody waits for another, and a service
  that nothing new happens to reaches its unload.
 */
module UnloadProgress {
  import opened UnloadProtocol

  /** The actions by which something new begins; every other one brings its thread nearer to its end. */
  predicate Begins(a: Action)
  {
    a.StartCall? || a.ClientDies? || a.StartMigrationTask? || a.StartUnloadTask?
    || a.RegisterClient? || a.UnregisterClient? || a.ClaimMigration?
  }

  /** Nothing new begins and no posting fails. */
  predicate Calm(run: seq<Action>)
  {
    forall a :: a in run ==> !Begins(a) && (a.StepAdd? ==> a.ok)
  }

  /** A bound on the steps a thread has left. */
  function StepsLeft(pc: Pc): int
  {
    match pc
    case CallEntered(_) => 8
    case CallBody(_) => 7
    case CallClaimed(_) => 8
    case CallLeft(_) => 6
    case CallLastOut => 5
    case Notify(stage, ret) => Bound(ret, 8) - stage
    case Add(stage, ret) => Bound(ret, 5) - stage
    case MigrationStarted => 8
    case ManagerBody => 7
    case ManagerTail => 6
    case MigrationReturned => 5
    case Unloading(stage, _) => 5 - stage
    case Done => 0
  }

  function Bound(ret: Return, steps: int): int
  {
    if ret.ToEnd? then steps else steps + 7
  }

  lemma StepTowardsEnd(s: State, a: Action)
    requires Enabled(s, a) && StagesOk(PcOf(s, a.t)) && !Begins(a)
    ensures 0 <= StepsLeft(PcOf(Next(s, a), a.t)) < StepsLeft(PcOf(s, a.t)) <= 14
    ensures Next(s, a).shared.clients == s.shared.clients
    ensures (a.StepAdd? ==> a.ok) && Next(s, a).shared.postFailed ==> s.shared.postFailed
    ensures !PcOf(Next(s, a), a.t).CallClaimed?
    ensures !PcOf(s, a.t).CallClaimed? ==> Next(s, a).shared.migrationQueued <= s.shared.migrationQueued
  {
  }

  /** How many of the actions are steps of the thread. */
  function StepsOf(run: seq<Action>, t: int): nat
  {
    if run == [] then 0 else (if run[0].t == t then 1 else 0) + StepsOf(run[1..], t)
  }

  /** Whatever the other threads do meanwhile, a thread takes at most 14 steps to its end. */
  lemma {:induction false} ThreadsEnd(s: State, run: seq<Action>, t: int)
    requires Inv(s) && IsRun(s, run) && forall a :: a in run ==> !Begins(a)
    ensures StepsOf(run, t) + StepsLeft(PcOf(Final(s, run), t)) <= StepsLeft(PcOf(s, t)) <= 14
    decreases |run|
  {
    hide Inv, Next, Enabled, StepsLeft;
    StagesOf(s, t);
    if run != [] {
      assert run[0] in run && forall a :: a in run[1..] ==> a in run;
      StagesOf(s, run[0].t);
      StepKeepsInv(s, run[0]);
      StepTowardsEnd(s, run[0]);
      OthersStay(s, run[0], t);
      ThreadsEnd(Next(s, run[0]), run[1..], t);
    }
  }

  lemma OthersStay(s: State, a: Action, t: int)
    requires Enabled(s, a)
    ensures t != a.t ==> PcOf(Next(s, a), t) == PcOf(s, t)
  {
  }

  lemma StagesOf(s: State, t: int)
    requires Inv(s)
    ensures StagesOk(PcOf(s, t)) && 0 <= StepsLeft(PcOf(s, t)) <= 14
  {
  }

  /** A thread that has not ended can always step on, whatever the shared state. */
  function Onward(pc: Pc, t: int): (a: Action)
    requires !pc.Done?
    ensures a.t == t && !Begins(a) && (a.StepAdd? ==> a.ok) && forall m :: CanStep(m, pc, a)
  {
    match pc
    case CallEntered(_) => CountCall(t)
    case CallBody(_) => LeaveCall(t)
    case CallClaimed(_) => PostMigration(t, true)
    case CallLeft(_) => ReadOnExit(t)
    case CallLastOut => ReadOnExit(t)
    case Notify(_, _) => StepNotify(t)
    case Add(_, _) => StepAdd(t, true)
    case MigrationStarted => EnterManager(t)
    case ManagerBody => ClearManager(t)
    case ManagerTail => ReturnFromManager(t)
    case MigrationReturned => ClearMigration(t)
    case Unloading(_, _) => StepUnload(t)
  }

  lemma {:induction false} Finish(s: State, t: int) returns (run: seq<Action>)
    requires Inv(s)
    ensures IsRun(s, run) && Calm(run) && Inv(Final(s, run)) && Final(s, run).shared.clients == s.shared.clients
    ensures PcOf(Final(s, run), t).Done? && forall u :: u != t ==> PcOf(Final(s, run), u) == PcOf(s, u)
    ensures Final(s, run).shared.postFailed ==> s.shared.postFailed
    ensures !PcOf(s, t).CallClaimed? ==> Final(s, run).shared.migrationQueued <= s.shared.migrationQueued
    decreases StepsLeft(PcOf(s, t))
  {
    hide Inv, Next, Enabled, StepsLeft, IsRun, Final, StagesOk;
    StagesOf(s, t);
    if PcOf(s, t).Done? {
      run := [];
      NoSteps(s);
    } else {
      var a := Onward(PcOf(s, t), t);
      assert Enabled(s, a) by { OnwardCan(s, a); }
      StepTowardsEnd(s, a);
      StepKeepsInv(s, a);
      forall u | u != t ensures PcOf(Next(s, a), u) == PcOf(s, u) {
        OthersStay(s, a, u);
      }
      var rest := Finish(Next(s, a), t);
      RunCons(s, a, rest);
      run := [a] + rest;
    }
  }

  lemma OnwardCan(s: State, a: Action)
    requires forall m :: CanStep(m, PcOf(s, a.t), a)
    ensures Enabled(s, a)
  {
    assert CanStep(s.shared, PcOf(s, a.t), a);
  }

  lemma NoSteps(s: State)
    ensures IsRun(s, []) && Final(s, []) == s
  {
  }

  function Active(threads: map<int, Pc>): set<int>
  {
    set t | t in threads && !threads[t].Done?
  }

  /** From every state of the protocol all threads can end without anything new beginning. */
  lemma {:induction false} CanSettle(s: State) returns (run: seq<Action>)
    requires Inv(s)
    ensures IsRun(s, run) && Calm(run) && Inv(Final(s, run))
    ensures Quiet(Final(s, run)) && Final(s, run).shared.clients == s.shared.clients
    ensures Final(s, run).shared.postFailed ==> s.shared.postFailed
    decreases |Active(s.threads)|
  {
    hide Inv, Next, Enabled, IsRun, Final;
    if Quiet(s) {
      run := [];
      NoSteps(s);
    } else {
      var t :| t in s.threads && !s.threads[t].Done?;
      var first := Finish(s, t);
      var s1 := Final(s, first);
      FewerActive(s, s1, t);
      var rest := CanSettle(s1);
      RunChain(s, first, rest);
      run := first + rest;
    }
  }

  lemma FewerActive(s: State, s1: State, t: int)
    requires t in s.threads && !s.threads[t].Done?
    requires PcOf(s1, t).Done? && forall u :: u != t ==> PcOf(s1, u) == PcOf(s, u)
    ensures |Active(s1.threads)| < |Active(s.threads)|
  {
    var now, was := Active(s1.threads), Active(s.threads);
    forall u | u in now ensures u in was && u != t {
      assert u != t ==> PcOf(s1, u) == PcOf(s, u);
    }
    assert t in was && now <= was - {t};
    assert was - {t} == now + (was - {t} - now);
  }

  /** With no client left and no posting failed, the service can always come to its unload by ending what is underway. */
  lemma CanUnload(s: State) returns (run: seq<Action>)
    requires Inv(s) && s.shared.clients == {} && !s.shared.postFailed
    ensures IsRun(s, run) && Final(s, run).shared.attempted
    ensures forall a :: a in run ==> !Begins(a) || a.StartMigrationTask? || a.StartUnloadTask?
  {
    hide Inv, Next, Enabled, IsRun, Final;
    run := CanSettle(s);
    var s1 := Final(s, run);
    if s1.shared.migrationQueued > 0 {
      var task := MigrationRuns(s1, 0);
      RunChain(s, run, task);
      run := run + task;
      s1 := Final(s, run);
    }
    QuietIsIdle(s1);
    assert Covered(s1.shared) by { SettledIsCovered(s1); }
    if !s1.shared.attempted {
      assert PcOf(s1, 0).Done?;
      QuietUnloadHappens(s1, 0);
      var task := [StartUnloadTask(0)] + [StepUnload(0)] + [StepUnload(0)] + [StepUnload(0)] + [StepUnload(0)];
      RunChain(s, run, task);
      run := run + task;
    }
  }

  lemma SettledIsCovered(s: State)
    requires Inv(s) && Idle(s.shared) && Quiet(s)
    ensures Covered(s.shared)
  {
  }

  /** When all threads have ended, nothing is counted and only a queued migration task holds the flag. */
  lemma QuietIsIdle(s: State)
    requires Inv(s) && Quiet(s)
    ensures s.shared.callingCount == 0 && !s.shared.managerBusy && PcOf(s, 0).Done?
    ensures s.shared.migrationQueued == Bit(s.shared.migrating)
  {
    DoneIsFree();
    hide IsCounted, HoldsFlag;
    assert forall t :: t in s.threads ==> s.threads[t] == Done;
    assert Counted(s.threads) == {} && Holders(s.threads) == {};
  }

  /** A queued migration task that nothing disturbs ends and queues the unload. */
  lemma MigrationRuns(s: State, t: int) returns (run: seq<Action>)
    requires Inv(s) && Quiet(s) && s.shared.migrationQueued > 0 && s.shared.clients == {} && !s.shared.postFailed
    ensures IsRun(s, run) && Inv(Final(s, run)) && Quiet(Final(s, run))
    ensures var m := Final(s, run).shared;
            m.clients == {} && !m.postFailed && m.migrationQueued == 0
    ensures forall a :: a in run ==> !Begins(a) || a.StartMigrationTask?
  {
    hide Inv, IsRun, Final, Next, Enabled;
    QuietIsIdle(s);
    var a := StartMigrationTask(t);
    TaskStarts(s, t);
    StepKeepsInv(s, a);
    run := Finish(Next(s, a), t);
    RunCons(s, a, run);
    run := [a] + run;
    OnlyOneUnderway(s, Next(s, a), Final(s, run), t);
  }

  lemma TaskStarts(s: State, t: int)
    requires Inv(s) && Quiet(s) && s.shared.migrationQueued > 0 && s.shared.migrationQueued <= 1
    ensures var a := StartMigrationTask(t);
      && Enabled(s, a) && PcOf(Next(s, a), t) == MigrationStarted
      && Next(s, a).shared == s.shared.(migrationQueued := 0, unloadQueued := 0)
      && forall u :: u != t ==> PcOf(Next(s, a), u) == PcOf(s, u)
  {
    assert PcOf(s, t).Done?;
  }

  lemma OnlyOneUnderway(s: State, s1: State, s2: State, t: int)
    requires Quiet(s) && PcOf(s2, t).Done?
    requires forall u :: u != t ==> PcOf(s1, u) == PcOf(s, u)
    requires forall u :: u != t ==> PcOf(s2, u) == PcOf(s1, u)
    ensures Quiet(s2)
  {
    forall u | u in s2.threads ensures s2.threads[u].Done? {
      assert u != t ==> PcOf(s2, u) == PcOf(s1, u) && PcOf(s1, u) == PcOf(s, u);
      assert u == t ==> PcOf(s2, t).Done?;
    }
  }

  // ----- What the marks and the client set mean -----

  /**
    An attempt is marked until the next activity, and only a task past its three reads makes one;
    likewise a failed posting.
   */
  lemma MarksAreRecent(s: State, a: Action)
    requires Enabled(s, a) && StagesOk(PcOf(s, a.t))
    ensures var pc, m, n := PcOf(s, a.t), s.shared, Next(s, a).shared;
            var begun := a.StartCall? || a.CountCall? || a.RegisterClient? || a.ClaimMigration? || a.ClientDies?;
            && (n.attempted <==> !begun && (m.attempted || (a.StepUnload? && pc.stage == 4)))
            && (n.postFailed <==> !begun && (m.postFailed || (a.StepAdd? && pc.stage == 4 && !a.ok)))
            && (n.unloadQueued > m.unloadQueued ==> a.StepAdd? && pc.stage == 4 && a.ok)
            && (n.migrationQueued > m.migrationQueued <==> a.PostMigration? && a.ok)
  {
  }

  predicate JoinedBy(a: Action, token: int, before: bool)
  {
    match a
    case RegisterClient(_, k) => k == token || before
    case UnregisterClient(_, k) => k != token && before
    case ClientDies(_, k) => k != token && before
    case _ => before
  }

  /** Whether the last action of the run about the token registered it. */
  predicate Joined(run: seq<Action>, token: int, before: bool)
  {
    if run == [] then before else Joined(run[1..], token, JoinedBy(run[0], token, before))
  }

  lemma ClientsStep(m: Shared, pc: Pc, a: Action, token: int)
    requires CanStep(m, pc, a)
    ensures token in Step(m, pc, a).0.clients <==> JoinedBy(a, token, token in m.clients)
  {
    hide SeesBusy;
    var n := Step(m, pc, a).0;
    if !a.RegisterClient? && !a.UnregisterClient? && !a.ClientDies? {
      assert n.clients == m.clients;
    }
  }

  lemma {:induction false} ClientsFollowRun(s: State, run: seq<Action>, token: int)
    requires IsRun(s, run)
    ensures token in Final(s, run).shared.clients <==> Joined(run, token, token in s.shared.clients)
    decreases |run|
  {
    hide Step, JoinedBy;
    if run != [] {
      ClientsStep(s.shared, PcOf(s, run[0].t), run[0], token);
      ClientsFollowRun(Next(s, run[0]), run[1..], token);
    }
  }

  // ----- What a thread that queues an unload has seen -----

  /** At index i of the run thread t read the field of this stage as idle, and only went on reading since. */
  predicate SawIdle(run: seq<Action>, i: nat, t: int, stage: nat)
    requires IsRun(START, run)
  {
    && i < |run| && run[i].t == t && run[i].StepAdd?
    && IsRun(START, run[..i]) && !SeesBusy(Final(START, run[..i]).shared, stage)
    && PcOf(Final(START, run[..i]), t).Add? && PcOf(Final(START, run[..i]), t).stage == stage
    && forall j :: i < j < |run| && run[j].t == t ==> run[j].StepAdd?
  }

  lemma {:induction false} RunPrefix(s: State, run: seq<Action>, n: nat)
    requires IsRun(s, run) && n < |run|
    ensures IsRun(s, run[..n]) && Enabled(Final(s, run[..n]), run[n])
    ensures n + 1 == |run| ==> Final(s, run) == Next(Final(s, run[..n]), run[n])
    decreases n
  {
    hide Enabled, Next;
    if n > 0 {
      RunPrefix(Next(s, run[0]), run[1..], n - 1);
      assert run[..n][1..] == run[1..][..n - 1];
    } else if |run| == 1 {
      assert run[1..] == [];
    }
  }

  lemma AddStage(m: Shared, pc: Pc, a: Action)
    requires CanStep(m, pc, a)
    ensures var next := Step(m, pc, a).1;
            next.Add? && next.stage != 1 ==>
              a.StepAdd? && pc.Add? && next.stage == pc.stage + 1 && !SeesBusy(m, pc.stage)
  {
  }

  /**
    Whoever is about to queue an unload task has, since it last did anything else, read the count as
    zero, then the migration flag as clear, then the clients as gone.
   */
  lemma {:induction false} PosterSawIdle(run: seq<Action>, t: int, stage: nat)
    requires IsRun(START, run) && PcOf(Final(START, run), t).Add?
    requires 1 <= stage < PcOf(Final(START, run), t).stage
    ensures exists i :: SawIdle(run, i, t, stage)
    decreases |run|
  {
    var n := |run| - 1;
    assert run != [] by { assert PcOf(START, 0).stage == 1; }
    RunPrefix(START, run, n);
    var front := run[..n];
    var s := Final(START, front);
    hide IsRun, Final, Step, SeesBusy, CanStep;
    if run[n].t != t {
      PosterSawIdle(front, t, stage);
      var i :| SawIdle(front, i, t, stage);
      SawEarlier(run, i, t, stage);
    } else {
      AddStage(s.shared, PcOf(s, t), run[n]);
      if PcOf(s, t).stage == stage {
        assert SawIdle(run, n, t, stage);
      } else {
        PosterSawIdle(front, t, stage);
        var i :| SawIdle(front, i, t, stage);
        SawEarlier(run, i, t, stage);
      }
    }
  }

  lemma SawEarlier(run: seq<Action>, i: nat, t: int, stage: nat)
    requires IsRun(START, run) && run != [] && IsRun(START, run[..|run| - 1])
    requires SawIdle(run[..|run| - 1], i, t, stage)
    requires run[|run| - 1].t == t ==> run[|run| - 1].StepAdd?
    ensures SawIdle(run, i, t, stage)
  {
    hide IsRun, Final, SeesBusy;
    assert run[..|run| - 1][..i] == run[..i];
    assert forall j :: i <= j < |run| - 1 ==> run[..|run| - 1][j] == run[j];
  }

  // ----- A client keeps the service -----

  /** A client is registered, and no thread has anything to do with unloading any more. */
  predicate Kept(s: State)
  {
    && s.shared.clients != {} && s.shared.unloadQueued == 0 && !s.shared.attempted
    && forall t :: t in s.threads ==> !s.threads[t].Unloading? && (s.threads[t].Add? ==> s.threads[t].stage <= 3)
  }

  lemma StepKeepsKept(m: Shared, pc: Pc, a: Action)
    requires CanStep(m, pc, a) && m.clients != {} && m.unloadQueued == 0 && !m.attempted
    requires !pc.Unloading? && (pc.Add? ==> pc.stage <= 3) && !a.UnregisterClient? && !a.ClientDies?
    ensures var (n, next) := Step(m, pc, a);
            && n.clients != {} && n.unloadQueued == 0 && !n.attempted
            && !next.Unloading? && (next.Add? ==> next.stage <= 3)
  {
  }

  /** While a client stays registered, whatever calls and migrations come and go, no unload is queued or attempted. */
  lemma {:induction false} ClientKeepsService(s: State, run: seq<Action>)
    requires Kept(s) && IsRun(s, run)
    requires forall a :: a in run ==> !a.UnregisterClient? && !a.ClientDies?
    ensures Kept(Final(s, run))
    decreases |run|
  {
    hide Step, CanStep;
    if run != [] {
      assert run[0] in run && forall a :: a in run[1..] ==> a in run;
      StepKeepsKept(s.shared, PcOf(s, run[0].t), run[0]);
      ClientKeepsService(Next(s, run[0]), run[1..]);
    }
  }

  /** Such a state is reached from the start: the first call registers a client and returns. */
  lemma ServiceIsKept(token: int) returns (run: seq<Action>)
    ensures IsRun(START, run) && Kept(Final(START, run)) && Quiet(Final(START, run))
    ensures Final(START, run).shared.clients == {token}
  {
    hide IsRun, Final;
    var s1 := Next(START, StartCall(1, true));
    var s2 := Next(s1, CountCall(1));
    var s3 := Next(s2, RegisterClient(1, token));
    run := LastCallEnds(s3, token);
    RunCons(s2, RegisterClient(1, token), run);
    run := [RegisterClient(1, token)] + run;
    RunCons(s1, CountCall(1), run);
    run := [CountCall(1)] + run;
    RunCons(START, StartCall(1, true), run);
    run := [StartCall(1, true)] + run;
  }

  /** The call of thread 1 returns, and so does the posting of thread 0, seeing the client. */
  lemma LastCallEnds(s: State, token: int) returns (run: seq<Action>)
    requires s.threads == map[0 := Add(1, ToEnd), 1 := CallBody(true)]
    requires s.shared.callingCount == 1 && !s.shared.migrating && s.shared.clients == {token}
    requires s.shared.unloadQueued == 0 && !s.shared.attempted
    ensures IsRun(s, run) && Kept(Final(s, run)) && Quiet(Final(s, run)) && Final(s, run).shared.clients == {token}
  {
    hide IsRun, Final;
    var s1 := Next(s, LeaveCall(1));
    var s2 := Next(s1, ReadOnExit(1));
    var s3 := Next(s2, ReadOnExit(1));
    assert s3.threads == map[0 := Add(1, ToEnd), 1 := Done] && s3.shared == s.shared.(callingCount := 0);
    run := PosterSeesClient(s3, token);
    RunCons(s2, ReadOnExit(1), run);
    run := [ReadOnExit(1)] + run;
    RunCons(s1, ReadOnExit(1), run);
    run := [ReadOnExit(1)] + run;
    RunCons(s, LeaveCall(1), run);
    run := [LeaveCall(1)] + run;
  }

  lemma PosterSeesClient(s: State, token: int) returns (run: seq<Action>)
    requires s.threads == map[0 := Add(1, ToEnd), 1 := Done]
    requires s.shared.callingCount == 0 && !s.shared.migrating && s.shared.clients == {token}
    requires s.shared.unloadQueued == 0 && !s.shared.attempted
    ensures IsRun(s, run) && Kept(Final(s, run)) && Quiet(Final(s, run)) && Final(s, run).shared.clients == {token}
  {
    hide IsRun, Final;
    var a := StepAdd(0, true);
    var s1 := Next(s, a);
    var s2 := Next(s1, a);
    var s3 := Next(s2, a);
    assert s3.threads == map[0 := Done, 1 := Done] && s3.shared == s.shared;
    RunOne(s2, a);
    RunCons(s1, a, [a]);
    RunCons(s, a, [a] + [a]);
    run := [a] + ([a] + [a]);
  }
}
