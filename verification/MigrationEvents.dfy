/**
  The events one migration reports. The migrating thread and the heartbeat thread share the
  manager's flag and the callback; each test, store and event is one step, and steps of the two
  threads interleave freely.
 */
module MigrationEvents {
  import opened Progress

  const ERR_OK := 0
  const HEARTBEAT_INTERVAL := 60

  datatype Event = Progressing(percentage: int) | Outcome(code: int) | HeartBeat

  /** The next step of the migrating thread; `reached` counts the files whose progress step was taken. */
  datatype Main =
    | Claim
    | Prepare
    | Report(i: nat)
    | CopyOne(i: nat)
    | ClearFlag(ret: int, reached: nat)
    | Announce(ret: int, reached: nat)
    | Join(ret: int, reached: nat)
    | Returned(ret: int, reached: nat)

  /** The next step of the heartbeat thread. */
  datatype Heart = NotStarted | Test | Beat | Sleep(seconds: nat) | Stopped

  datatype State = State(total: nat, main: Main, heart: Heart, migrating: bool, trace: seq<Event>)

  /** A step of the migrating thread with the code its fallible operation returns, or of the heartbeat thread. */
  datatype Action = MainStep(code: int) | HeartStep

  function Start(total: nat): State
  {
    State(total, Claim, NotStarted, false, [])
  }

  /** The progress step of file i. */
  function ProgressOf(i: nat, total: nat): seq<Event>
    requires i < total
  {
    if IsShouldUpdateProgress(i, total) then [Progressing(Percentage(i, total))] else []
  }

  predicate Enabled(s: State, a: Action)
  {
    match a
    case MainStep(_) =>
      if s.main.Join? then s.heart.NotStarted? || s.heart.Stopped?
      else if s.main.Report? then s.main.i <= s.total
      else !s.main.Returned?
    case HeartStep => !s.heart.NotStarted? && !s.heart.Stopped?
  }

  function Next(s: State, a: Action): State
    requires Enabled(s, a)
  {
    match a
    case MainStep(code) => NextMain(s, code)
    case HeartStep => NextHeart(s)
  }

  function NextMain(s: State, code: int): State
    requires Enabled(s, MainStep(code))
  {
    match s.main
    case Claim => s.(main := Prepare, migrating := true)
    case Prepare =>
      if code == ERR_OK then s.(main := Report(0), heart := Test) else s.(main := ClearFlag(code, 0))
    case Report(i) =>
      if i == s.total then s.(main := ClearFlag(ERR_OK, i))
      else s.(main := CopyOne(i), trace := s.trace + ProgressOf(i, s.total))
    case CopyOne(i) => s.(main := if code == ERR_OK then Report(i + 1) else ClearFlag(code, i + 1))
    case ClearFlag(ret, reached) => s.(main := Announce(ret, reached), migrating := false)
    case Announce(ret, reached) => s.(main := Join(ret, reached), trace := s.trace + [Outcome(ret)])
    case Join(ret, reached) => s.(main := Returned(ret, reached))
    case Returned(_, _) => s
  }

  function NextHeart(s: State): State
    requires Enabled(s, HeartStep)
  {
    match s.heart
    case Test => s.(heart := if s.migrating then Beat else Stopped)
    case Beat => s.(heart := Sleep(0), trace := s.trace + [HeartBeat])
    case Sleep(k) => s.(heart := if k < HEARTBEAT_INTERVAL && s.migrating then Sleep(k + 1) else Test)
    case _ => s
  }

  predicate IsRun(s: State, run: seq<Action>)
    decreases |run|
  {
    run != [] ==> Enabled(s, run[0]) && IsRun(Next(s, run[0]), run[1..])
  }

  function Final(s: State, run: seq<Action>): State
    requires IsRun(s, run)
    decreases |run|
  {
    if run == [] then s else Final(Next(s, run[0]), run[1..])
  }

  // ----- What a trace shows -----

  /** The events without the heartbeats. */
  function Visible(trace: seq<Event>): seq<Event>
  {
    if trace == [] then []
    else
      var front := Visible(trace[..|trace| - 1]);
      var last := trace[|trace| - 1];
      if last.HeartBeat? then front else front + [last]
  }

  predicate HasOutcome(trace: seq<Event>)
  {
    exists k :: 0 <= k < |trace| && trace[k].Outcome?
  }

  /** How many heartbeats come after the result. */
  function LateBeats(trace: seq<Event>): nat
  {
    if trace == [] then 0
    else
      var front := trace[..|trace| - 1];
      LateBeats(front) + if trace[|trace| - 1].HeartBeat? && HasOutcome(front) then 1 else 0
  }

  /** The progress events of the first n files. */
  function Reported(total: nat, n: nat): seq<Event>
    requires n <= total
  {
    if n == 0 then [] else Reported(total, n - 1) + ProgressOf(n - 1, total)
  }

  lemma VisibleAppend(trace: seq<Event>, e: Event)
    ensures Visible(trace + [e]) == if e.HeartBeat? then Visible(trace) else Visible(trace) + [e]
    ensures LateBeats(trace + [e]) == LateBeats(trace) + if e.HeartBeat? && HasOutcome(trace) then 1 else 0
    ensures HasOutcome(trace + [e]) <==> HasOutcome(trace) || e.Outcome?
  {
    var all := trace + [e];
    assert all[..|all| - 1] == trace;
    assert forall k :: 0 <= k < |trace| ==> all[k] == trace[k];
    assert all[|trace|] == e;
  }

  // ----- The invariant -----

  predicate InRange(total: nat, main: Main)
  {
    match main
    case Report(i) => i <= total
    case CopyOne(i) => i < total
    case ClearFlag(ret, n) => Reached(total, ret, n)
    case Announce(ret, n) => Reached(total, ret, n)
    case Join(ret, n) => Reached(total, ret, n)
    case Returned(ret, n) => Reached(total, ret, n)
    case _ => true
  }

  predicate Reached(total: nat, ret: int, n: nat)
  {
    n <= total && (ret == ERR_OK ==> n == total)
  }

  /** What the trace must show once the migrating thread is at `main`. */
  function Expected(total: nat, main: Main): seq<Event>
    requires InRange(total, main)
  {
    match main
    case Claim => []
    case Prepare => []
    case Report(i) => Reported(total, i)
    case CopyOne(i) => Reported(total, i + 1)
    case ClearFlag(_, n) => Reported(total, n)
    case Announce(_, n) => Reported(total, n)
    case Join(ret, n) => Reported(total, n) + [Outcome(ret)]
    case Returned(ret, n) => Reported(total, n) + [Outcome(ret)]
  }

  predicate MainInv(s: State)
  {
    InRange(s.total, s.main) && Visible(s.trace) == Expected(s.total, s.main)
  }

  predicate Announced(s: State)
  {
    s.main.Join? || s.main.Returned?
  }

  predicate HeartInv(s: State)
  {
    && (s.migrating <==> s.main.Prepare? || s.main.Report? || s.main.CopyOne? || s.main.ClearFlag?)
    && (s.main.Claim? || s.main.Prepare? ==> s.heart.NotStarted?)
    && (s.main.Returned? ==> s.heart.NotStarted? || s.heart.Stopped?)
    && (HasOutcome(s.trace) <==> Announced(s))
    && LateBeats(s.trace) + (if s.heart.Beat? && Announced(s) then 1 else 0) <= 1
    && (!Announced(s) ==> LateBeats(s.trace) == 0)
  }

  /** The events a step adds: none or one. */
  function Emitted(s: State, a: Action): seq<Event>
    requires Enabled(s, a)
  {
    match a
    case HeartStep => if s.heart.Beat? then [HeartBeat] else []
    case MainStep(_) =>
      if s.main.Announce? then [Outcome(s.main.ret)]
      else if s.main.Report? && s.main.i < s.total then ProgressOf(s.main.i, s.total)
      else []
  }

  lemma EmittedEffect(s: State, a: Action)
    requires Enabled(s, a)
    ensures Next(s, a).trace == s.trace + Emitted(s, a)
    ensures Visible(s.trace + Emitted(s, a)) ==
            Visible(s.trace) + if a.HeartStep? then [] else Emitted(s, a)
    ensures LateBeats(s.trace + Emitted(s, a)) ==
            LateBeats(s.trace) + if a.HeartStep? && s.heart.Beat? && HasOutcome(s.trace) then 1 else 0
    ensures HasOutcome(s.trace + Emitted(s, a)) <==> HasOutcome(s.trace) || (a.MainStep? && s.main.Announce?)
  {
    hide Visible, LateBeats, HasOutcome, IsShouldUpdateProgress, Percentage;
    if Emitted(s, a) == [] {
      assert s.trace + [] == s.trace && Visible(s.trace) + [] == Visible(s.trace);
    } else {
      assert Emitted(s, a) == [Emitted(s, a)[0]];
      VisibleAppend(s.trace, Emitted(s, a)[0]);
    }
  }

  lemma ExpectedFollows(s: State, code: int)
    requires InRange(s.total, s.main) && Enabled(s, MainStep(code))
    ensures var t := NextMain(s, code);
      InRange(t.total, t.main) && Expected(t.total, t.main) == Expected(s.total, s.main) + Emitted(s, MainStep(code))
  {
    hide IsShouldUpdateProgress, Percentage;
    assert Expected(s.total, s.main) + [] == Expected(s.total, s.main);
  }

  lemma NextKeepsMainInv(s: State, a: Action)
    requires MainInv(s) && Enabled(s, a)
    ensures MainInv(Next(s, a))
  {
    hide Visible, LateBeats, HasOutcome, Expected, Emitted;
    EmittedEffect(s, a);
    match a {
      case HeartStep => assert Visible(s.trace) + [] == Visible(s.trace);
      case MainStep(code) => ExpectedFollows(s, code);
    }
  }

  lemma NextKeepsHeartInv(s: State, a: Action)
    requires HeartInv(s) && Enabled(s, a)
    ensures HeartInv(Next(s, a))
  {
    hide Visible, LateBeats, HasOutcome, Reported, ProgressOf;
    EmittedEffect(s, a);
  }

  lemma {:induction false} RunKeepsInv(s: State, run: seq<Action>)
    requires MainInv(s) && HeartInv(s) && IsRun(s, run)
    ensures MainInv(Final(s, run)) && HeartInv(Final(s, run)) && Final(s, run).total == s.total
    decreases |run|
  {
    if run != [] {
      NextKeepsMainInv(s, run[0]);
      NextKeepsHeartInv(s, run[0]);
      RunKeepsInv(Next(s, run[0]), run[1..]);
    }
  }

  /**
    In every interleaving the events other than heartbeats are the progress of a prefix of the
    files, all of them on success, followed by exactly one result once it is announced; at most
    one heartbeat follows the result, and after DataMigration returned no step is left.
   */
  lemma EventOrder(total: nat, run: seq<Action>)
    requires IsRun(Start(total), run)
    ensures var s := Final(Start(total), run);
      && LateBeats(s.trace) <= 1
      && (exists n: nat :: n <= total &&
            (Visible(s.trace) == Reported(total, n)
             || exists ret: int ::
                  Visible(s.trace) == Reported(total, n) + [Outcome(ret)] && (ret == ERR_OK ==> n == total)))
      && (s.main.Returned? ==>
            && s.main.reached <= total
            && Visible(s.trace) == Reported(total, s.main.reached) + [Outcome(s.main.ret)]
            && forall a :: !Enabled(s, a))
  {
    hide IsRun, Final;
    assert Visible([]) == Reported(total, 0);
    assert LateBeats([]) == 0;
    RunKeepsInv(Start(total), run);
    var s := Final(Start(total), run);
    assert !Announced(s) ==> exists n: nat :: n <= total && Visible(s.trace) == Reported(total, n) by {
      assert s.trace == [] ==> Visible(s.trace) == Reported(total, 0);
    }
  }

  // ----- The result and the codes of the steps -----

  /** The codes returned by the steps that can fail, preparation and copies, in a run. */
  function Codes(s: State, run: seq<Action>): seq<int>
    requires IsRun(s, run)
    decreases |run|
  {
    if run == [] then []
    else (if run[0].MainStep? && (s.main.Prepare? || s.main.CopyOne?) then [run[0].code] else [])
         + Codes(Next(s, run[0]), run[1..])
  }

  predicate AllOk(codes: seq<int>)
  {
    forall k :: 0 <= k < |codes| ==> codes[k] == ERR_OK
  }

  /** Where the migrating thread stands, given the codes it got. */
  predicate CodesInv(s: State, codes: seq<int>)
  {
    match s.main
    case Claim => codes == []
    case Prepare => codes == []
    case Report(i) => |codes| == i + 1 && AllOk(codes) && i <= s.total
    case CopyOne(i) => |codes| == i + 1 && AllOk(codes) && i < s.total
    case ClearFlag(ret, n) => Decided(s.total, codes, ret, n)
    case Announce(ret, n) => Decided(s.total, codes, ret, n)
    case Join(ret, n) => Decided(s.total, codes, ret, n)
    case Returned(ret, n) => Decided(s.total, codes, ret, n)
  }

  /** The result is the last code, all before it were ERR_OK, and n files were reached. */
  predicate Decided(total: nat, codes: seq<int>, ret: int, n: nat)
  {
    && |codes| == n + 1 && codes[n] == ret && AllOk(codes[..n])
    && n <= total && (ret == ERR_OK ==> n == total)
  }

  lemma NextKeepsCodes(s: State, a: Action, codes: seq<int>)
    requires CodesInv(s, codes) && Enabled(s, a)
    ensures CodesInv(Next(s, a),
                     codes + if a.MainStep? && (s.main.Prepare? || s.main.CopyOne?) then [a.code] else [])
  {
    hide ProgressOf;
    assert codes + [] == codes && (s.main.Report? ==> AllOk(codes[..|codes| - 1]));
    if a.MainStep? {
      assert (codes + [a.code])[..|codes|] == codes;
    }
  }

  lemma {:induction false} RunKeepsCodes(s: State, run: seq<Action>, before: seq<int>)
    requires CodesInv(s, before) && IsRun(s, run)
    ensures CodesInv(Final(s, run), before + Codes(s, run))
    decreases |run|
  {
    hide CodesInv, Next, Enabled;
    if run == [] {
      assert before + [] == before;
    } else {
      var first := if run[0].MainStep? && (s.main.Prepare? || s.main.CopyOne?) then [run[0].code] else [];
      NextKeepsCodes(s, run[0], before);
      RunKeepsCodes(Next(s, run[0]), run[1..], before + first);
      assert before + first + Codes(Next(s, run[0]), run[1..]) == before + (first + Codes(Next(s, run[0]), run[1..]));
    }
  }

  /**
    What the listener has been told fits the codes got so far: no step was taken after a code other
    than ERR_OK, the files reported then are those up to the one whose copy gave it, an announced
    result is the last code, and ERR_OK is announced exactly when every step returned it and every
    file was copied. The first code is that of the preparation, the others those of the copies.
   */
  predicate ResultOf(s: State, codes: seq<int>)
  {
    && |codes| <= s.total + 1 && (forall k :: 0 <= k < |codes| - 1 ==> codes[k] == ERR_OK)
    && (codes != [] && codes[|codes| - 1] != ERR_OK ==>
          Visible(s.trace) == Reported(s.total, |codes| - 1)
                              + if HasOutcome(s.trace) then [Outcome(codes[|codes| - 1])] else [])
    && (HasOutcome(s.trace) ==>
          && codes != []
          && Visible(s.trace) == Reported(s.total, |codes| - 1) + [Outcome(codes[|codes| - 1])]
          && (codes[|codes| - 1] == ERR_OK <==> |codes| == s.total + 1 && AllOk(codes)))
    && (s.main.Returned? ==> HasOutcome(s.trace) && s.main.ret == codes[|codes| - 1] && s.main.reached == |codes| - 1)
  }

  /** The result is that of the steps, after every run. */
  lemma ResultIsOfTheSteps(total: nat, run: seq<Action>)
    requires IsRun(Start(total), run)
    ensures ResultOf(Final(Start(total), run), Codes(Start(total), run))
  {
    hide IsRun, Final, Codes, ResultOf, MainInv, HeartInv, CodesInv;
    StartInvs(total);
    RunKeepsInv(Start(total), run);
    RunKeepsCodes(Start(total), run, []);
    var codes := Codes(Start(total), run);
    assert [] + codes == codes;
    TraceOfCodes(Final(Start(total), run), codes);
  }

  lemma StartInvs(total: nat)
    ensures MainInv(Start(total)) && HeartInv(Start(total)) && CodesInv(Start(total), [])
  {
    assert Visible([]) == [] && LateBeats([]) == 0;
  }

  lemma TraceOfCodes(s: State, codes: seq<int>)
    requires MainInv(s) && HeartInv(s) && CodesInv(s, codes)
    ensures ResultOf(s, codes)
  {
    hide Reported, Visible, LateBeats, HasOutcome, CodesInv;
    LastCode(s, codes);
    if codes != [] && |codes| - 1 <= s.total {
      assert Reported(s.total, |codes| - 1) + [] == Reported(s.total, |codes| - 1);
    }
  }

  lemma LastCode(s: State, codes: seq<int>)
    requires CodesInv(s, codes)
    ensures forall k :: 0 <= k < |codes| - 1 ==> codes[k] == ERR_OK
    ensures |codes| <= s.total + 1
    ensures codes != [] && codes[|codes| - 1] != ERR_OK ==>
              (s.main.ClearFlag? || s.main.Announce? || Announced(s))
              && Decided(s.total, codes, s.main.ret, s.main.reached)
    ensures Announced(s) ==> Decided(s.total, codes, s.main.ret, s.main.reached)
  {
    assert forall k :: 0 <= k < |codes| - 1 ==> codes[..|codes| - 1][k] == codes[k];
  }

  // ----- The pace of the heartbeat -----

  function HeartSteps(run: seq<Action>): nat
  {
    if run == [] then 0 else (if run[0].HeartStep? then 1 else 0) + HeartSteps(run[1..])
  }

  function Beats(trace: seq<Event>): nat
  {
    if trace == [] then 0 else Beats(trace[..|trace| - 1]) + if trace[|trace| - 1].HeartBeat? then 1 else 0
  }

  lemma BeatsAppend(trace: seq<Event>, e: Event)
    ensures Beats(trace + [e]) == Beats(trace) + if e.HeartBeat? then 1 else 0
  {
    assert (trace + [e])[..|trace|] == trace;
  }

  /** Whatever the migrating thread does: while the flag stays set, no heartbeat comes before 60 seconds. */
  lemma {:induction false} HeartWaits(s: State, run: seq<Action>)
    requires HeartInv(s) && IsRun(s, run) && Final(s, run).migrating
    requires s.heart.Sleep? && s.heart.seconds + HeartSteps(run) <= 60
    ensures Final(s, run).heart == Sleep(s.heart.seconds + HeartSteps(run))
    ensures Beats(Final(s, run).trace) == Beats(s.trace)
    decreases |run|
  {
    hide HeartInv, LateBeats, HasOutcome, IsShouldUpdateProgress, Percentage, Enabled;
    if run != [] {
      var next := Next(s, run[0]);
      NextKeepsHeartInv(s, run[0]);
      SleepsAfterClaim(s);
      if !s.migrating {
        FlagStaysClear(s, run);
      }
      HeartStepWaits(s, run[0]);
      HeartWaits(next, run[1..]);
    }
  }

  lemma SleepsAfterClaim(s: State)
    requires HeartInv(s) && s.heart.Sleep?
    ensures !s.main.Claim? && !s.main.Prepare?
  {
  }

  lemma HeartStepWaits(s: State, a: Action)
    requires Enabled(s, a) && s.heart.Sleep? && s.migrating && !s.main.Prepare?
    requires a.HeartStep? ==> s.heart.seconds < 60
    ensures Next(s, a).heart == Sleep(s.heart.seconds + if a.HeartStep? then 1 else 0)
    ensures Beats(Next(s, a).trace) == Beats(s.trace)
  {
    hide IsShouldUpdateProgress, Percentage, Beats;
    match a {
      case HeartStep => assert Next(s, a).trace == s.trace;
      case MainStep(code) => MainAddsNoBeat(s, code);
    }
  }

  lemma MainAddsNoBeat(s: State, code: int)
    requires Enabled(s, MainStep(code))
    ensures Beats(NextMain(s, code).trace) == Beats(s.trace)
  {
    hide IsShouldUpdateProgress, Percentage, Beats;
    var t := NextMain(s, code).trace;
    if |t| > |s.trace| {
      BeatsAppend(s.trace, t[|s.trace|]);
      assert t == s.trace + [t[|s.trace|]];
    } else {
      assert t == s.trace;
    }
  }

  /** Once a migration has begun, its flag is not set again. */
  lemma {:induction false} FlagStaysClear(s: State, run: seq<Action>)
    requires IsRun(s, run) && !s.main.Claim? && !s.migrating
    ensures !Final(s, run).migrating
    decreases |run|
  {
    hide IsShouldUpdateProgress, Percentage;
    if run != [] {
      FlagStaysClear(Next(s, run[0]), run[1..]);
    }
  }

  /** Then it comes, with the third further step. */
  lemma HeartBeatsAgain(s: State)
    requires s.heart == Sleep(60) && s.migrating
    ensures var s1 := Next(s, HeartStep);
            var s2 := Next(s1, HeartStep);
            Next(s2, HeartStep) == s.(heart := Sleep(0), trace := s.trace + [HeartBeat])
  {
  }

  lemma Prepend(s: State, a: Action, rest: seq<Action>)
    requires Enabled(s, a) && IsRun(Next(s, a), rest)
    ensures IsRun(s, [a] + rest) && Final(s, [a] + rest) == Final(Next(s, a), rest)
  {
    assert ([a] + rest)[1..] == rest;
  }

  /** The bound is met: the heartbeat thread may pass its test before the flag is cleared and beat after the result. */
  lemma OneLateBeatHappens() returns (run: seq<Action>)
    ensures IsRun(Start(0), run) && LateBeats(Final(Start(0), run).trace) == 1
  {
    var s6 := State(0, Join(0, 0), Beat, false, [] + [Outcome(0)]);
    var s7 := Next(s6, HeartStep);
    assert IsRun(s7, []) && Final(s7, []) == s7;
    assert LateBeats(s7.trace) == 1 by {
      VisibleAppend([], Outcome(0));
      VisibleAppend([] + [Outcome(0)], HeartBeat);
    }
    hide IsRun, Final, LateBeats;
    var s1 := Next(Start(0), MainStep(0));
    var s2 := Next(s1, MainStep(0));
    var s3 := Next(s2, HeartStep);
    var s4 := Next(s3, MainStep(0));
    var s5 := Next(s4, MainStep(0));
    assert Next(s5, MainStep(0)) == s6;
    Prepend(s6, HeartStep, []);
    run := [HeartStep] + [];
    Prepend(s5, MainStep(0), run);
    run := [MainStep(0)] + run;
    Prepend(s4, MainStep(0), run);
    run := [MainStep(0)] + run;
    Prepend(s3, MainStep(0), run);
    run := [MainStep(0)] + run;
    Prepend(s2, HeartStep, run);
    run := [HeartStep] + run;
    Prepend(s1, MainStep(0), run);
    run := [MainStep(0)] + run;
    Prepend(Start(0), MainStep(0), run);
    run := [MainStep(0)] + run;
  }

  // ----- The join ends -----

  /** Steps the heartbeat thread needs to stop once the flag is clear. */
  function StepsToStop(h: Heart): nat
  {
    match h
    case NotStarted => 0
    case Stopped => 0
    case Test => 1
    case Sleep(_) => 2
    case Beat => 3
  }

  lemma NothingAfterReturn(s: State, run: seq<Action>)
    requires s.main.Returned? && (s.heart.NotStarted? || s.heart.Stopped?) && IsRun(s, run)
    ensures run == []
  {
  }

  /**
    The join always ends: from any state that waits in it, every run has at most as many steps as the
    heartbeat thread needs to stop, and one; until DataMigration has returned some step is enabled,
    and a run of that length has returned.
   */
  lemma {:induction false} JoinEnds(s: State, run: seq<Action>)
    requires s.main.Join? && !s.migrating && IsRun(s, run)
    ensures var end := Final(s, run);
      && |run| <= StepsToStop(s.heart) + 1 <= 4
      && (|run| == StepsToStop(s.heart) + 1 <==> end.main == Returned(s.main.ret, s.main.reached))
      && (|run| <= StepsToStop(s.heart) ==> Enabled(end, HeartStep) || Enabled(end, MainStep(0)))
    decreases |run|
  {
    if run != [] {
      var next := Next(s, run[0]);
      if run[0].HeartStep? {
        assert StepsToStop(next.heart) == StepsToStop(s.heart) - 1;
        JoinEnds(next, run[1..]);
      } else {
        assert next.main.Returned? && StepsToStop(s.heart) == 0;
        NothingAfterReturn(next, run[1..]);
      }
    }
  }

  // ----- What a listener sees of the progress -----

  predicate Ascending(events: seq<Event>)
  {
    && (forall k :: 0 <= k < |events| ==> events[k].Progressing? && 0 <= events[k].percentage <= 99)
    && (forall j, k :: 0 <= j < k < |events| ==> events[j].percentage < events[k].percentage)
  }

  /** Each reported percentage belongs to one of the first n files. */
  lemma {:induction false} ReportedFrom(total: nat, n: nat) returns (at: seq<nat>)
    requires n <= total
    ensures |at| == |Reported(total, n)|
    ensures forall k :: 0 <= k < |at| ==>
      at[k] < n && IsShouldUpdateProgress(at[k], total) && Reported(total, n)[k] == Progressing(Percentage(at[k], total))
    ensures forall j, k :: 0 <= j < k < |at| ==> at[j] < at[k]
  {
    hide IsShouldUpdateProgress, Percentage;
    if n == 0 {
      at := [];
    } else {
      at := ReportedFrom(total, n - 1);
      if IsShouldUpdateProgress(n - 1, total) {
        at := at + [n - 1];
      }
    }
  }

  /** A listener sees strictly increasing percentages from 0 to 99. */
  lemma ProgressAscends(total: nat, n: nat)
    requires n <= total < 0x1_0000_0000
    ensures Ascending(Reported(total, n)) && |Reported(total, n)| <= 100
  {
    hide IsShouldUpdateProgress, Percentage, Reported;
    var at := ReportedFrom(total, n);
    var events := Reported(total, n);
    forall k | 0 <= k < |at| ensures 0 <= Percentage(at[k], total) <= 99 {
      PercentageInRange(at[k], total);
    }
    forall j, k | 0 <= j < k < |at| ensures Percentage(at[j], total) < Percentage(at[k], total) {
      PercentagesIncrease(at[j], at[k], total);
    }
    ShortAscent(events, 100);
  }

  lemma {:induction false} ShortAscent(events: seq<Event>, bound: nat)
    requires Ascending(events) && forall k :: 0 <= k < |events| ==> events[k].percentage < bound
    ensures |events| <= bound
    decreases |events|
  {
    if events != [] {
      var last := |events| - 1;
      ShortAscent(events[..last], events[last].percentage);
    }
  }
}
