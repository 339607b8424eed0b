/**
 The thread pool can always finish: from every state that an orderly client reaches, some
 continuation lets the wait return. Which one is found by a rank that a suitable step of
 some thread lowers.
 */
module ThreadPoolProgress {
  import opened Basics
  import opened ThreadPool

  predicate Busy(pc: Pc) {
    pc.Running? || pc.Ran?
  }

  predicate Left(pc: Pc) {
    pc.Leaving? || pc.TailRan? || pc.Halted?
  }

  /** How many workers have a job in their hands. */
  function BusyCount(pcs: seq<Pc>): (n: nat) {
    if pcs == [] then 0 else (if Busy(pcs[0]) then 1 else 0) + BusyCount(pcs[1..])
  }

  lemma {:induction false} BusyUpdate(pcs: seq<Pc>, i: nat, pc: Pc)
    requires i < |pcs|
    ensures BusyCount(pcs[i := pc]) == BusyCount(pcs) - (if Busy(pcs[i]) then 1 else 0) + (if Busy(pc) then 1 else 0)
  {
    if i == 0 {
      assert pcs[i := pc][1..] == pcs[1..];
    } else {
      assert pcs[i := pc][1..] == pcs[1..][i - 1 := pc];
      BusyUpdate(pcs[1..], i - 1, pc);
    }
  }

  lemma {:induction false} BusyNone(pcs: seq<Pc>)
    ensures BusyCount(pcs) == 0 <==> forall i :: 0 <= i < |pcs| ==> !Busy(pcs[i])
  {
    if pcs != [] {
      BusyNone(pcs[1..]);
      assert forall i :: 0 < i < |pcs| ==> pcs[i] == pcs[1..][i - 1];
    }
  }

  /** Every job is queued, in some worker's hands or finished. */
  predicate Counted(s: Pool) {
    |s.finished| + |s.queue| + BusyCount(s.pcs) == s.pushed
  }

  /** No worker has left while a job was queued. */
  predicate Drained(s: Pool) {
    forall i :: 0 <= i < |s.pcs| && Left(s.pcs[i]) ==> s.noNew && s.queue == []
  }

  /** The wait announces itself before anything else, and a worker that has the mutex is one of the pool's. */
  predicate Waits(s: Pool) {
    (s.phase != Idle && s.phase != Returned ==> s.waiting) && (s.lock.Worker? ==> s.lock.i < |s.pcs|)
  }

  ghost predicate Steady(s: Pool) {
    Inv(s) && Counted(s) && Drained(s) && Waits(s)
  }

  lemma InitialSteady(s: Pool)
    requires Initial(s)
    ensures Steady(s)
  {
    InitialInv(s);
    BusyNone(s.pcs);
  }

  lemma SteadySizes(s: Pool)
    requires Steady(s)
    ensures |s.pcs| == |s.tails|
  {
  }

  /** Every step of an orderly client that pushes nothing after announcing the last job. */
  lemma StepKeepsSteady(s: Pool, a: Action)
    requires Steady(s) && (a.Push? ==> !s.noNew) && |s.pcs| == |s.tails| && Act(s, a, Orderly).Step?
    ensures Steady(Act(s, a, Orderly).next) && |Act(s, a, Orderly).next.pcs| == |s.pcs|
  {
    hide Inv, WorkStep, WaitStep;
    StepKeepsInv(s, a);
    match a
    case Work(i) => WorkKeepsSteady(s, i);
    case Wait =>
      WaitFrame(s, Orderly);
      WaitKeepsWaits(s);
    case _ =>
  }

  lemma WorkKeepsSteady(s: Pool, i: nat)
    requires Counted(s) && Drained(s) && Waits(s) && i < |s.pcs| == |s.tails| && WorkStep(s, i).Step?
    ensures var t := WorkStep(s, i).next; Counted(t) && Drained(t) && Waits(t) && |t.pcs| == |s.pcs|
  {
    WorkFrame(s, i);
    WorkJobs(s, i);
    WorkLeaves(s, i);
    hide WorkStep;
    BusyUpdate(s.pcs, i, WorkStep(s, i).next.pcs[i]);
  }

  /** A worker leaves exactly when no job is coming and none is queued. */
  lemma WorkLeaves(s: Pool, i: nat)
    requires i < |s.pcs| == |s.tails| && WorkStep(s, i).Step?
    ensures var t := WorkStep(s, i).next;
            && |t.pcs| == |s.pcs|
            && (!Left(s.pcs[i]) && Left(t.pcs[i]) ==> s.pcs[i].Locked? && s.noNew && s.queue == [])
            && (Left(s.pcs[i]) ==> Left(t.pcs[i])) && (t.lock == s.lock || t.lock == Worker(i) || t.lock == Nobody)
  {
    match s.pcs[i]
    case Top =>
    case Locked =>
    case Checking =>
    case Sleeping =>
    case Ready =>
    case Running(_) =>
    case Ran(_) =>
    case Leaving =>
    case TailRan =>
    case Halted =>
  }

  lemma WaitKeepsWaits(s: Pool)
    requires Drained(s) && Waits(s) && WaitStep(s, Orderly).Step?
    ensures Drained(WaitStep(s, Orderly).next) && Waits(WaitStep(s, Orderly).next)
  {
    match s.phase
    case Idle =>
    case WantLock =>
    case CheckTotal =>
    case SleepTotal =>
    case CheckTails =>
    case SleepTails =>
    case Returned =>
  }

  // The rank

  /** Jobs are queued; all are taken but not finished; all are finished. */
  datatype Mode = Supplied | Draining | Closing

  function ModeOf(s: Pool): (m: Mode) {
    if s.total == 0 then Closing else if s.queue != [] then Supplied else Draining
  }

  function Weight(m: Mode, pc: Pc): (w: nat) {
    if m == Closing then
      match pc
      case Sleeping => 8 case Checking => 7 case Ready => 6 case Top => 5 case Locked => 4
      case Leaving => 3 case TailRan => 2 case _ => 0
    else
      match pc
      case Top => 7 case Sleeping => (if m == Supplied then 7 else 4) case Locked => 6 case Checking => 5 case Ready => 4
      case Running(_) => 3 case Ran(_) => 2 case _ => 1
  }

  function Weights(m: Mode, pcs: seq<Pc>): (w: nat) {
    if pcs == [] then 0 else Weight(m, pcs[0]) + Weights(m, pcs[1..])
  }

  lemma {:induction false} WeightsUpdate(m: Mode, pcs: seq<Pc>, i: nat, pc: Pc)
    requires i < |pcs|
    ensures Weights(m, pcs[i := pc]) == Weights(m, pcs) - Weight(m, pcs[i]) + Weight(m, pc)
  {
    if i == 0 {
      assert pcs[i := pc][1..] == pcs[1..];
    } else {
      assert pcs[i := pc][1..] == pcs[1..][i - 1 := pc];
      WeightsUpdate(m, pcs[1..], i - 1, pc);
    }
  }

  lemma {:induction false} WeightsDrop(pcs: seq<Pc>)
    ensures Weights(Draining, pcs) <= Weights(Supplied, pcs)
  {
    if pcs != [] {
      WeightsDrop(pcs[1..]);
    }
  }

  predicate AllHalted(s: Pool) {
    forall i :: 0 <= i < |s.pcs| ==> s.pcs[i].Halted?
  }

  function PhaseWeight(s: Pool): (w: nat) {
    if s.total != 0 then (if s.phase == CheckTotal then 1 else 0)
    else
      match s.phase
      case Idle => 6 case WantLock => 5 case SleepTotal => 5 case CheckTotal => 4 case CheckTails => 3
      case SleepTails => (if AllHalted(s) then 4 else 2) case Returned => 0
  }

  function Rank(s: Pool): (r: nat) {
    3 * Weights(ModeOf(s), s.pcs) + PhaseWeight(s)
  }

  /** `t` is closer to the end than `s`. */
  predicate Closer(t: Pool, s: Pool) {
    t.total < s.total || (t.total == s.total && Rank(t) < Rank(s))
  }

  /** No more jobs will come, and all have been counted. */
  ghost predicate Ending(s: Pool) {
    Steady(s) && s.noNew && s.uncounted == 0 && |s.pcs| == |s.tails| >= 1
  }

  /** The counter is what is queued or in hands. */
  lemma TotalIsLeft(s: Pool)
    requires Ending(s)
    ensures s.total == |s.queue| + BusyCount(s.pcs)
    ensures s.total == 0 ==> s.queue == [] && forall i :: 0 <= i < |s.pcs| ==> !Busy(s.pcs[i])
  {
    hide JobsOk, LogOk, LockOk, ReadyOk, TailsOk, QueueOk;
    BusyNone(s.pcs);
  }

  /** A worker's step that lowers its own weight, or finishes a job, brings the end closer. */
  lemma WorkCloser(s: Pool, i: nat)
    requires Ending(s) && i < |s.pcs| && WorkStep(s, i).Step?
    requires var t := WorkStep(s, i).next;
             && |t.pcs| == |s.pcs|
             && (t.total < s.total || Weight(ModeOf(s), t.pcs[i]) + 1 < Weight(ModeOf(s), s.pcs[i])
                 || (Weight(ModeOf(s), t.pcs[i]) < Weight(ModeOf(s), s.pcs[i]) && !t.pcs[i].Halted?))
    ensures Closer(WorkStep(s, i).next, s)
  {
    hide Inv;
    WorkFrame(s, i);
    WorkJobs(s, i);
    hide WorkStep;
    var t := WorkStep(s, i).next;
    WeightsUpdate(ModeOf(s), s.pcs, i, t.pcs[i]);
    WeightsDrop(t.pcs);
  }

  /** The worker that holds the mutex can go on, unless it waits for the wait to start. */
  lemma HolderCloser(s: Pool, i: nat)
    requires Ending(s) && i < |s.pcs| && s.lock == Worker(i) && (s.total == 0 ==> s.waiting)
    ensures WorkStep(s, i).Step? && Closer(WorkStep(s, i).next, s)
  {
    TotalIsLeft(s);
    HolderSteps(s, i);
    WorkCloser(s, i);
  }

  lemma HolderSteps(s: Pool, i: nat)
    requires LockOk(s) && ReadyOk(s) && i < |s.pcs| == |s.tails| && s.lock == Worker(i) && s.noNew
    requires (s.total == 0 ==> s.waiting && s.queue == [])
    ensures WorkStep(s, i).Step?
    ensures var t := WorkStep(s, i).next;
            |t.pcs| == |s.pcs| && !t.pcs[i].Halted? && Weight(ModeOf(s), t.pcs[i]) < Weight(ModeOf(s), s.pcs[i])
  {
    assert HoldsLock(s.pcs[i]);
    match s.pcs[i]
    case Locked =>
    case Checking =>
    case Ready =>
    case _ =>
  }

  /** With the mutex free: finish a job, take one, or, when all are finished, go home. */
  lemma FreeCloser(s: Pool, i: nat)
    requires Ending(s) && i < |s.pcs| && s.lock == Nobody
    requires if s.total == 0 then !s.pcs[i].Halted?
             else Busy(s.pcs[i]) || (s.queue != [] && !Left(s.pcs[i]))
    ensures WorkStep(s, i).Step? && Closer(WorkStep(s, i).next, s)
  {
    TotalIsLeft(s);
    FreeSteps(s, i);
    WorkCloser(s, i);
  }

  lemma FreeSteps(s: Pool, i: nat)
    requires LockOk(s) && i < |s.pcs| == |s.tails| && s.lock == Nobody
    requires if s.total == 0 then !s.pcs[i].Halted? && !Busy(s.pcs[i])
             else Busy(s.pcs[i]) || (s.queue != [] && !Left(s.pcs[i]))
    ensures WorkStep(s, i).Step?
    ensures var t := WorkStep(s, i).next;
            && |t.pcs| == |s.pcs|
            && (t.total < s.total || Weight(ModeOf(s), t.pcs[i]) + 1 < Weight(ModeOf(s), s.pcs[i])
                || (Weight(ModeOf(s), t.pcs[i]) < Weight(ModeOf(s), s.pcs[i]) && !t.pcs[i].Halted?))
  {
    assert !HoldsLock(s.pcs[i]);
    match s.pcs[i]
    case Top =>
    case Sleeping =>
    case Running(_) =>
    case Ran(_) =>
    case Leaving =>
    case TailRan =>
    case _ =>
  }

  /** The waiter can go on: it has the mutex, or all is done and only it is left, or it has not started. */
  lemma WaitCloser(s: Pool)
    requires Ending(s) && s.phase != Returned
    requires (s.total == 0 && s.phase == Idle) || s.lock == Waiter || (s.lock == Nobody && s.total == 0 && AllHalted(s))
    ensures WaitStep(s, Orderly).Step? && Closer(WaitStep(s, Orderly).next, s)
  {
    hide JobsOk, LogOk, ReadyOk, QueueOk, Weights;
    if AllHalted(s) {
      assert PendingTails(s) == {};
    }
    match s.phase
    case Idle =>
    case WantLock =>
    case CheckTotal =>
    case SleepTotal =>
    case CheckTails =>
    case SleepTails =>
    case Returned =>
  }

  lemma EndingNext(s: Pool, a: Action)
    requires Ending(s) && (a.Work? || a.Wait?) && Act(s, a, Orderly).Step?
    ensures Ending(Act(s, a, Orderly).next)
  {
    StepKeepsSteady(s, a);
    SteadySizes(Act(s, a, Orderly).next);
    hide Steady;
    match a
    case Work(i) => WorkFrame(s, i);
    case Wait => WaitLeaves(s);
  }

  lemma WaitLeaves(s: Pool)
    requires WaitStep(s, Orderly).Step?
    ensures var t := WaitStep(s, Orderly).next; t.noNew == s.noNew && t.uncounted == s.uncounted && t.pcs == s.pcs && t.tails == s.tails
  {
  }

  /** Some thread can bring the end closer. */
  lemma SomeoneCloser(s: Pool) returns (a: Action)
    requires Ending(s) && s.phase != Returned
    ensures (a.Work? || a.Wait?) && Act(s, a, Orderly).Step? && Closer(Act(s, a, Orderly).next, s)
  {
    TotalIsLeft(s);
    if s.total == 0 && s.phase == Idle {
      WaitCloser(s);
      return Wait;
    }
    match s.lock
    case Worker(i) =>
      HolderCloser(s, i);
      return Work(i);
    case Waiter =>
      WaitCloser(s);
      return Wait;
    case Nobody =>
      if s.total == 0 && AllHalted(s) {
        WaitCloser(s);
        return Wait;
      } else if s.total == 0 {
        var i: nat :| i < |s.pcs| && !s.pcs[i].Halted?;
        FreeCloser(s, i);
        return Work(i);
      } else {
        var i := Taker(s);
        FreeCloser(s, i);
        return Work(i);
      }
  }

  /** While jobs are left and the mutex is free, a worker has one or can take one. */
  lemma Taker(s: Pool) returns (i: nat)
    requires Ending(s) && s.total != 0 && s.lock == Nobody
    ensures i < |s.pcs| && (Busy(s.pcs[i]) || (s.queue != [] && !Left(s.pcs[i])))
  {
    TotalIsLeft(s);
    BusyNone(s.pcs);
    if i' :| 0 <= i' < |s.pcs| && Busy(s.pcs[i']) {
      i := i';
    } else {
      i := 0;
    }
  }

  // Whole runs

  /** Some continuation without further jobs ends with the wait returned and everything done. */
  ghost predicate CanFinish(s: Pool)
    requires |s.pcs| == |s.tails|
  {
    exists actions :: Finishes(s, actions)
  }

  ghost predicate Finishes(s: Pool, actions: seq<Action>)
    requires |s.pcs| == |s.tails|
  {
    var r := Result(s, actions, Orderly);
    Push !in actions && r.Step? && r.next.phase == Returned && AllDone(r.next)
  }

  lemma FinishesAfter(s: Pool, a: Action)
    requires |s.pcs| == |s.tails| && a != Push && Act(s, a, Orderly).Step?
    requires var t := Act(s, a, Orderly).next; |t.pcs| == |t.tails| && CanFinish(t)
    ensures CanFinish(s)
  {
    hide Act, AllDone;
    var t := Act(s, a, Orderly).next;
    var rest :| Finishes(t, rest);
    assert ([a] + rest)[1..] == rest;
    assert Finishes(s, [a] + rest);
  }

  lemma {:induction false} EndingCanFinish(s: Pool)
    requires Ending(s)
    ensures CanFinish(s)
    decreases s.total, Rank(s)
  {
    hide Steady, Act, Rank;
    if s.phase == Returned {
      SteadyInv(s);
      ReturnedIsDone(s);
      assert Finishes(s, []);
    } else {
      var a := SomeoneCloser(s);
      var t := Act(s, a, Orderly).next;
      EndingNext(s, a);
      TotalIsLeft(t);
      EndingCanFinish(t);
      FinishesAfter(s, a);
    }
  }

  lemma SteadyInv(s: Pool)
    requires Steady(s)
    ensures Inv(s)
  {
  }

  /** First let the pushes under way be counted, then announce that no job is coming. */
  lemma {:induction false} SteadyCanFinish(s: Pool)
    requires Steady(s) && |s.pcs| == |s.tails| >= 1
    ensures CanFinish(s)
    decreases s.uncounted, !s.noNew
  {
    hide Steady, CanFinish;
    if s.uncounted > 0 {
      StepKeepsSteady(s, Count);
      SteadyCanFinish(Act(s, Count, Orderly).next);
      FinishesAfter(s, Count);
    } else if !s.noNew {
      StepKeepsSteady(s, SetNoNew);
      SteadyCanFinish(Act(s, SetNoNew, Orderly).next);
      FinishesAfter(s, SetNoNew);
    } else {
      EndingCanFinish(s);
    }
  }

  /** No job is pushed after the announcement that none is coming. */
  ghost predicate KeepsWord(states: seq<Pool>, actions: seq<Action>)
    requires |states| == |actions| + 1
  {
    forall t: nat :: t < |actions| && actions[t] == Push ==> !states[t].noNew
  }

  lemma {:induction false} RunKeepsSteady(states: seq<Pool>, actions: seq<Action>, t: nat)
    requires Run(states, actions) && KeepsWord(states, actions) && t < |states|
    ensures Steady(states[t]) && |states[t].pcs| == |states[t].tails| && |states[t].pcs| == |states[0].pcs|
  {
    if t == 0 {
      InitialSteady(states[0]);
    } else {
      hide Steady, Act, Initial;
      RunKeepsSteady(states, actions, t - 1);
      assert Follows(states[t - 1], actions[t - 1], states[t]);
      StepKeepsSteady(states[t - 1], actions[t - 1]);
      SteadySizes(states[t]);
    }
  }

  /**
   No run gets stuck: at any time in any interleaving of a client that keeps its word, if
   there is a worker at all, the threads can go on so that every job is executed and the
   wait returns.
   */
  lemma PoolCanFinish(states: seq<Pool>, actions: seq<Action>, t: nat)
    requires Run(states, actions) && KeepsWord(states, actions) && t < |states| && |states[0].pcs| >= 1
    ensures |states[t].pcs| == |states[t].tails| && CanFinish(states[t])
  {
    hide Steady, CanFinish;
    RunKeepsSteady(states, actions, t);
    SteadyCanFinish(states[t]);
  }

  /** A job pushed when every worker has gone home is never executed, and the wait cannot return. */
  lemma {:induction false} LateJobStrands(s: Pool, actions: seq<Action>)
    requires |s.pcs| == |s.tails| && AllHalted(s) && s.queue != []
    ensures !Finishes(s, actions)
    decreases actions
  {
    if actions != [] {
      match Act(s, actions[0], Orderly)
      case Step(t) =>
        StrandedNext(s, actions[0]);
        LateJobStrands(t, actions[1..]);
      case _ =>
    }
  }

  lemma StrandedNext(s: Pool, a: Action)
    requires |s.pcs| == |s.tails| && AllHalted(s) && s.queue != [] && Act(s, a, Orderly).Step?
    ensures var t := Act(s, a, Orderly).next; |t.pcs| == |t.tails| && AllHalted(t) && t.queue != []
  {
    WaitFrame(s, Orderly);
    hide WaitStep;
  }

  /** Which a client can bring about by breaking its word, here with one worker. */
  lemma BrokenWordStrands(s: Pool)
    requires Initial(s) && s.pcs == [Top] && s.tails == [false]
    ensures exists actions :: var r := Result(s, actions, Orderly);
              r.Step? && |r.next.pcs| == |r.next.tails| && !CanFinish(r.next)
  {
    hide Result, AllDone;
    var s1 := s.(noNew := true);
    var s2 := s1.(pcs := [Locked], lock := Worker(0));
    var s3 := s1.(pcs := [Leaving]);
    var s4 := s1.(pcs := [Halted]);
    var s5 := s4.(queue := [0], pushed := 1, uncounted := 1);
    forall actions
      ensures !Finishes(s5, actions)
    {
      LateJobStrands(s5, actions);
    }
    ResultNone(s5);
    ResultStep(s4, Push, s5, []);
    ResultStep(s3, Work(0), s4, [Push]);
    ResultStep(s2, Work(0), s3, [Work(0)] + [Push]);
    ResultStep(s1, Work(0), s2, [Work(0)] + ([Work(0)] + [Push]));
    ResultStep(s, SetNoNew, s1, [Work(0)] + ([Work(0)] + ([Work(0)] + [Push])));
    assert [Push] + [] == [Push];
    assert Result(s, [SetNoNew] + ([Work(0)] + ([Work(0)] + ([Work(0)] + [Push]))), Orderly) == Step(s5);
  }

  lemma ResultNone(s: Pool)
    requires |s.pcs| == |s.tails|
    ensures Result(s, [], Orderly) == Step(s)
  {
  }

  lemma ResultStep(s: Pool, a: Action, t: Pool, rest: seq<Action>)
    requires |s.pcs| == |s.tails| && |t.pcs| == |t.tails| && Act(s, a, Orderly) == Step(t)
    ensures Result(s, [a] + rest, Orderly) == Result(t, rest, Orderly)
  {
    hide Act;
    assert ([a] + rest)[1..] == rest;
  }
}
