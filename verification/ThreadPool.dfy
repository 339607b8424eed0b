/**
 The thread pool as a state machine: workers, one waiter and any number of pushers, each
 moving by atomic steps. A step either needs the mutex, or is an access to an atomic variable
 that can fall between the steps of a thread holding the mutex.

 The counter of unfinished jobs is unsigned in the program; here it is an integer that may
 go below zero for a moment, and the program's "greater than zero" is "not zero".
 */
module ThreadPool {
  import opened Basics

  datatype Pc =
    | Top                 // at the head of the worker loop
    | Locked              // holds the mutex, about to test for the end
    | Checking            // holds the mutex, about to evaluate the wait condition
    | Sleeping            // in the condition variable
    | Ready               // holds the mutex, the wait condition was true
    | Running(job: nat)   // has taken a job, mutex released
    | Ran(job: nat)       // the job has returned
    | Leaving             // out of the loop
    | TailRan             // the tail job has returned
    | Halted

  datatype Phase = Idle | WantLock | CheckTotal | SleepTotal | CheckTails | SleepTails | Returned

  datatype Owner = Nobody | Worker(i: nat) | Waiter

  datatype Event = RanJob(worker: nat, job: nat) | RanTail(worker: nat)

  /**
   `pushed`, `finished` and `log` are history: how many jobs were pushed, which ones were
   counted as done, and what was executed by whom. Jobs are numbered in the order of pushing.
   */
  datatype Pool = Pool(
    queue: seq<nat>, total: int, noNew: bool, waiting: bool, numTails: int, lock: Owner,
    pcs: seq<Pc>, tails: seq<bool>, phase: Phase, uncounted: nat,
    pushed: nat, finished: seq<nat>, log: seq<Event>)

  /**
   How the client uses the pool. An orderly client starts the wait when pushing is over and
   every push has returned. An overlapping one may start it while a push has not been counted
   yet. An unrestricted one may push and start the wait at any time.
   */
  datatype Client = Orderly | Overlapping | Unrestricted

  datatype Action = Push | Count | SetNoNew | Work(i: nat) | Wait

  datatype Outcome = Disabled | Step(next: Pool) | EmptyPop

  /** One step of worker `i`. */
  function WorkStep(s: Pool, i: nat): (r: Outcome)
    requires i < |s.pcs| == |s.tails|
  {
    match s.pcs[i]
    case Top => if s.lock != Nobody then Disabled else Step(s.(pcs := s.pcs[i := Locked], lock := Worker(i)))
    case Locked =>
      if s.noNew && s.queue == [] then Step(s.(pcs := s.pcs[i := Leaving], lock := Nobody)) else Step(s.(pcs := s.pcs[i := Checking]))
    case Checking =>
      if s.queue != [] || (s.waiting && s.total == 0) then Step(s.(pcs := s.pcs[i := Ready]))
      else Step(s.(pcs := s.pcs[i := Sleeping], lock := Nobody))
    case Sleeping => if s.lock != Nobody then Disabled else Step(s.(pcs := s.pcs[i := Checking], lock := Worker(i)))
    case Ready =>
      if s.total == 0 then Step(s.(pcs := s.pcs[i := Top], lock := Nobody))
      else if s.queue == [] then EmptyPop
      else Step(s.(pcs := s.pcs[i := Running(s.queue[0])], queue := s.queue[1..], lock := Nobody))
    case Running(j) => Step(s.(pcs := s.pcs[i := Ran(j)], log := s.log + [RanJob(i, j)]))
    case Ran(j) =>
      if s.lock != Nobody then Disabled
      else Step(s.(pcs := s.pcs[i := Top], total := s.total - 1, finished := s.finished + [j]))
    case Leaving =>
      if s.tails[i] then Step(s.(pcs := s.pcs[i := TailRan], log := s.log + [RanTail(i)])) else Step(s.(pcs := s.pcs[i := Halted]))
    case TailRan =>
      if s.lock != Nobody then Disabled else Step(s.(pcs := s.pcs[i := Halted], numTails := s.numTails - 1))
    case Halted => Disabled
  }

  predicate MayWait(s: Pool, client: Client) {
    match client
    case Orderly => s.noNew && s.uncounted == 0
    case Overlapping => s.noNew
    case Unrestricted => true
  }

  /** One step of `waitForTasks`. */
  function WaitStep(s: Pool, client: Client): (r: Outcome) {
    match s.phase
    case Idle => if MayWait(s, client) then Step(s.(waiting := true, phase := WantLock)) else Disabled
    case WantLock => if s.lock != Nobody then Disabled else Step(s.(lock := Waiter, phase := CheckTotal))
    case CheckTotal => if s.total == 0 then Step(s.(phase := CheckTails)) else Step(s.(lock := Nobody, phase := SleepTotal))
    case SleepTotal => if s.lock != Nobody then Disabled else Step(s.(lock := Waiter, phase := CheckTotal))
    case CheckTails =>
      if s.numTails == 0 then Step(s.(waiting := false, lock := Nobody, phase := Returned))
      else Step(s.(lock := Nobody, phase := SleepTails))
    case SleepTails => if s.lock != Nobody then Disabled else Step(s.(lock := Waiter, phase := CheckTails))
    case Returned => Disabled
  }

  /** Pushing puts the job in the queue under the mutex and counts it afterwards, without the mutex. */
  function Act(s: Pool, a: Action, client: Client): (r: Outcome)
    requires |s.pcs| == |s.tails|
  {
    match a
    case Push =>
      if (s.phase != Idle && client != Unrestricted) || s.lock != Nobody then Disabled
      else Step(s.(queue := s.queue + [s.pushed], pushed := s.pushed + 1, uncounted := s.uncounted + 1))
    case Count => if s.uncounted == 0 then Disabled else Step(s.(total := s.total + 1, uncounted := s.uncounted - 1))
    case SetNoNew => Step(s.(noNew := true))
    case Work(i) => if i < |s.pcs| then WorkStep(s, i) else Disabled
    case Wait => WaitStep(s, client)
  }

  /** A new pool: every worker at the head of its loop; `tails[i]` says whether worker `i` has a tail job. */
  predicate Initial(s: Pool) {
    && s.queue == [] && s.total == 0 && !s.noNew && !s.waiting && s.lock == Nobody
    && |s.pcs| == |s.tails| && (forall i :: 0 <= i < |s.pcs| ==> s.pcs[i] == Top)
    && s.phase == Idle && s.uncounted == 0 && s.pushed == 0 && s.finished == [] && s.log == []
    && s.numTails == |PendingTails(s)|
  }

  /** The workers that have a tail job and have not reported it yet. */
  function PendingTails(s: Pool): (r: set<nat>)
    requires |s.pcs| == |s.tails|
  {
    set i: nat | i < |s.pcs| && s.tails[i] && !s.pcs[i].Halted?
  }

  // The invariant

  /** Jobs taken out of the queue so far: they were numbered below this. */
  function Taken(s: Pool): (n: int) {
    s.pushed - |s.queue|
  }

  predicate QueueOk(s: Pool) {
    |s.queue| <= s.pushed && forall k: nat :: k < |s.queue| ==> s.queue[k] == Taken(s) + k
  }

  /** Job `j` has been executed. */
  predicate Logged(log: seq<Event>, j: nat) {
    exists a :: 0 <= a < |log| && log[a].RanJob? && log[a].job == j
  }

  /** No job is executed twice, and no worker does anything after its tail job. */
  predicate LogOk(log: seq<Event>) {
    && (forall a, b :: 0 <= a < b < |log| && log[a].RanJob? && log[b].RanJob? ==> log[a].job != log[b].job)
    && (forall a, b :: 0 <= a < b < |log| && log[a].RanTail? ==> log[a].worker != log[b].worker)
  }

  predicate HeldBy(s: Pool, i: nat, j: nat) {
    i < |s.pcs| && s.pcs[i] == Running(j)
  }

  predicate ReturnedTo(s: Pool, i: nat, j: nat) {
    i < |s.pcs| && s.pcs[i] == Ran(j)
  }

  /** Every job taken is held by one worker or executed, and only executed ones are finished. */
  ghost predicate JobsOk(s: Pool) {
    && (forall j: nat :: Logged(s.log, j) ==> j < Taken(s))
    && (forall i: nat, j: nat :: HeldBy(s, i, j) ==> j < Taken(s) && !Logged(s.log, j))
    && (forall i: nat, k: nat, j: nat :: HeldBy(s, i, j) && HeldBy(s, k, j) ==> i == k)
    && (forall j: nat :: j in s.finished ==> Logged(s.log, j))
    && (forall i: nat, j: nat :: ReturnedTo(s, i, j) ==> Logged(s.log, j) && j !in s.finished)
    && (forall i: nat, k: nat, j: nat :: ReturnedTo(s, i, j) && ReturnedTo(s, k, j) ==> i == k)
    && Distinct(s.finished)
  }

  predicate HoldsLock(pc: Pc) {
    pc.Locked? || pc.Checking? || pc.Ready?
  }

  predicate LockOk(s: Pool) {
    && (forall i: nat :: i < |s.pcs| ==> (HoldsLock(s.pcs[i]) <==> s.lock == Worker(i)))
    && (s.lock == Waiter <==> s.phase == CheckTotal || s.phase == CheckTails)
  }

  /** A worker past the wait has a job in the queue, unless all jobs are done and no push is under way. */
  predicate ReadyOk(s: Pool) {
    forall i: nat :: i < |s.pcs| && s.pcs[i].Ready? ==> s.queue != [] || (s.waiting && s.total == 0)
  }

  predicate CountOk(s: Pool) {
    && s.total == s.pushed - s.uncounted - |s.finished|
    && (s.waiting ==> s.phase != Idle) && (s.phase != Idle ==> s.uncounted == 0)
    && (s.phase in {CheckTails, SleepTails, Returned} ==> s.total == 0)
  }

  predicate TailDone(pc: Pc) {
    pc.TailRan? || pc.Halted?
  }

  predicate TailsOk(s: Pool) {
    && |s.pcs| == |s.tails|
    && (forall a :: 0 <= a < |s.log| && s.log[a].RanTail? ==> s.log[a].worker < |s.pcs| && TailDone(s.pcs[s.log[a].worker]))
    && (forall i: nat :: i < |s.pcs| && s.tails[i] && TailDone(s.pcs[i]) ==> RanTail(i) in s.log)
    && (forall i: nat :: i < |s.pcs| && s.pcs[i].TailRan? ==> s.tails[i])
    && s.numTails == |PendingTails(s)|
    && (s.phase == Returned ==> s.numTails == 0)
  }

  ghost predicate Inv(s: Pool) {
    && QueueOk(s) && LogOk(s.log) && JobsOk(s) && LockOk(s) && ReadyOk(s) && CountOk(s) && TailsOk(s)
  }

  lemma InitialInv(s: Pool)
    requires Initial(s)
    ensures Inv(s)
  {
  }

  function Elements(list: seq<nat>): (s: set<nat>)
    requires Distinct(list)
    ensures |s| == |list| && forall x: nat :: x in s <==> x in list
  {
    if list == [] then {}
    else
      var rest := list[1..];
      assert list == [list[0]] + rest && list[0] !in rest;
      Elements(rest) + {list[0]}
  }

  lemma {:induction false} SubsetSize(a: set<nat>, b: set<nat>)
    requires a <= b
    ensures |a| <= |b|
    decreases |a|
  {
    if a != {} {
      var x :| x in a;
      SubsetSize(a - {x}, b - {x});
    }
  }

  /** As many different numbers below `n` as there are: all of them. */
  lemma AllBelow(list: seq<nat>, n: nat, j: nat)
    requires |list| == n && Distinct(list) && forall x: nat :: x in list ==> x < n
    requires j < n
    ensures j in list
  {
    if j !in list {
      SubsetSize(Elements(list), NatsBelow(n) - {j});
    }
  }

  /** When the counter is zero and every push is counted, every job is finished. */
  lemma ZeroMeansFinished(s: Pool, j: nat)
    requires Inv(s) && s.total == 0 && s.uncounted == 0 && j < s.pushed
    ensures j in s.finished && Logged(s.log, j)
  {
    forall x: nat | x in s.finished
      ensures x < s.pushed
    {
      assert Logged(s.log, x);
    }
    AllBelow(s.finished, s.pushed, j);
  }

  // Preservation, one part of the invariant at a time

  lemma LoggedMore(log: seq<Event>, e: Event, j: nat)
    ensures Logged(log + [e], j) <==> Logged(log, j) || (e.RanJob? && e.job == j)
  {
    if Logged(log, j) {
      var a :| 0 <= a < |log| && log[a].RanJob? && log[a].job == j;
      assert (log + [e])[a] == log[a];
    }
    if e.RanJob? && e.job == j {
      assert (log + [e])[|log|] == e;
    }
    if Logged(log + [e], j) {
      var a :| 0 <= a < |log + [e]| && (log + [e])[a].RanJob? && (log + [e])[a].job == j;
      assert a < |log| ==> log[a] == (log + [e])[a];
    }
  }

  /** A worker's step leaves the other workers, the pushers and the waiter alone. */
  lemma WorkFrame(s: Pool, i: nat)
    requires i < |s.pcs| == |s.tails| && WorkStep(s, i).Step?
    ensures var t := WorkStep(s, i).next;
            && |t.pcs| == |s.pcs| && t.pcs == s.pcs[i := t.pcs[i]] && t.tails == s.tails
            && t.noNew == s.noNew && t.waiting == s.waiting && t.phase == s.phase
            && t.uncounted == s.uncounted && t.pushed == s.pushed
  {
    match s.pcs[i]
    case Top =>
    case Locked =>
    case Checking =>
    case Sleeping =>
    case Ready =>
    case Running(_) =>
    case Ran(_) =>
    case Leaving =>
    case TailRan =>
    case Halted =>
  }

  /** When it takes, executes or finishes a job, and what it logs. */
  lemma WorkJobs(s: Pool, i: nat)
    requires i < |s.pcs| == |s.tails| && WorkStep(s, i).Step?
    ensures var t := WorkStep(s, i).next;
            && |t.pcs| == |s.pcs|
            && t.queue == (if t.pcs[i].Running? then s.queue[1..] else s.queue)
            && (t.pcs[i].Running? ==> s.queue != [] && t.pcs[i].job == s.queue[0] && s.pcs[i].Ready?)
            && t.log == (match t.pcs[i] case Ran(j) => s.log + [RanJob(i, j)] case TailRan => s.log + [RanTail(i)] case _ => s.log)
            && (t.pcs[i].Ran? ==> s.pcs[i] == Running(t.pcs[i].job)) && (s.pcs[i].Running? ==> t.pcs[i].Ran?)
            && t.finished == (if s.pcs[i].Ran? then s.finished + [s.pcs[i].job] else s.finished)
            && t.total == (if s.pcs[i].Ran? then s.total - 1 else s.total)
  {
    match s.pcs[i]
    case Top =>
    case Locked =>
    case Checking =>
    case Sleeping =>
    case Ready =>
    case Running(_) =>
    case Ran(_) =>
    case Leaving =>
    case TailRan =>
    case Halted =>
  }

  lemma WorkTails(s: Pool, i: nat)
    requires i < |s.pcs| == |s.tails| && WorkStep(s, i).Step?
    ensures var t := WorkStep(s, i).next;
            && |t.pcs| == |s.pcs|
            && (t.pcs[i].TailRan? ==> s.pcs[i].Leaving? && s.tails[i])
            && t.numTails == (if s.pcs[i].TailRan? then s.numTails - 1 else s.numTails)
            && (t.pcs[i].Halted? ==> s.pcs[i].TailRan? || (s.pcs[i].Leaving? && !s.tails[i]))
            && (s.pcs[i].TailRan? ==> t.pcs[i].Halted?) && !s.pcs[i].Halted?
  {
    match s.pcs[i]
    case Top =>
    case Locked =>
    case Checking =>
    case Sleeping =>
    case Ready =>
    case Running(_) =>
    case Ran(_) =>
    case Leaving =>
    case TailRan =>
    case Halted =>
  }

  lemma WorkLock(s: Pool, i: nat)
    requires i < |s.pcs| == |s.tails| && WorkStep(s, i).Step?
    ensures var t := WorkStep(s, i).next;
            && |t.pcs| == |s.pcs|
            && (t.pcs[i].Ready? ==> s.pcs[i].Checking? && (s.queue != [] || (s.waiting && s.total == 0)))
            && (if HoldsLock(t.pcs[i]) then t.lock == (if HoldsLock(s.pcs[i]) then s.lock else Worker(i))
                else t.lock == (if HoldsLock(s.pcs[i]) then Nobody else s.lock))
            && (!HoldsLock(s.pcs[i]) && (HoldsLock(t.pcs[i]) || s.pcs[i].Ran? || s.pcs[i].TailRan?) ==> s.lock == Nobody)
            && (t.pcs[i].Running? ==> HoldsLock(s.pcs[i]))
  {
    match s.pcs[i]
    case Top =>
    case Locked =>
    case Checking =>
    case Sleeping =>
    case Ready =>
    case Running(_) =>
    case Ran(_) =>
    case Leaving =>
    case TailRan =>
    case Halted =>
  }

  lemma WorkKeepsQueue(s: Pool, i: nat)
    requires QueueOk(s) && i < |s.pcs| == |s.tails| && WorkStep(s, i).Step?
    ensures QueueOk(WorkStep(s, i).next)
  {
    hide WorkStep;
    WorkFrame(s, i);
    WorkJobs(s, i);
    var t := WorkStep(s, i).next;
    forall k: nat | k < |t.queue|
      ensures t.queue[k] == Taken(t) + k
    {
      assert t.queue[k] == s.queue[k + |s.queue| - |t.queue|];
    }
  }

  lemma WorkKeepsLog(s: Pool, i: nat)
    requires LogOk(s.log) && JobsOk(s) && TailsOk(s) && i < |s.pcs| && WorkStep(s, i).Step?
    ensures LogOk(WorkStep(s, i).next.log)
  {
    hide WorkStep, PendingTails;
    WorkJobs(s, i);
    WorkTails(s, i);
    var t := WorkStep(s, i).next;
    if t.pcs[i].Ran? {
      assert HeldBy(s, i, t.pcs[i].job);
      assert forall a :: 0 <= a < |s.log| && s.log[a].RanJob? ==> Logged(s.log, s.log[a].job);
    }
    assert forall a :: 0 <= a < |s.log| && s.log[a].RanTail? ==> TailDone(s.pcs[s.log[a].worker]);
  }

  lemma WorkKeepsLock(s: Pool, i: nat)
    requires LockOk(s) && i < |s.pcs| == |s.tails| && WorkStep(s, i).Step?
    ensures LockOk(WorkStep(s, i).next)
  {
    hide WorkStep;
    WorkFrame(s, i);
    WorkLock(s, i);
    var t := WorkStep(s, i).next;
    forall k: nat | k < |t.pcs|
      ensures HoldsLock(t.pcs[k]) <==> t.lock == Worker(k)
    {
      assert HoldsLock(s.pcs[k]) <==> s.lock == Worker(k);
      assert HoldsLock(s.pcs[i]) <==> s.lock == Worker(i);
    }
  }

  /** A worker past the wait cannot find the queue empty. */
  lemma WorkNeverPopsEmpty(s: Pool, i: nat)
    requires ReadyOk(s) && i < |s.pcs| == |s.tails|
    ensures !WorkStep(s, i).EmptyPop?
  {
  }

  lemma WorkKeepsReady(s: Pool, i: nat)
    requires ReadyOk(s) && LockOk(s) && i < |s.pcs| == |s.tails| && WorkStep(s, i).Step?
    ensures ReadyOk(WorkStep(s, i).next)
  {
    hide WorkStep;
    WorkFrame(s, i);
    WorkLock(s, i);
    WorkJobs(s, i);
    var t := WorkStep(s, i).next;
    forall k: nat | k < |t.pcs| && t.pcs[k].Ready?
      ensures t.queue != [] || (t.waiting && t.total == 0)
    {
      if k != i {
        assert s.pcs[k].Ready? && s.lock == Worker(k) && !HoldsLock(s.pcs[i]);
      }
    }
  }

  /** No worker finishes a job once the waiter has seen the counter at zero. */
  lemma WorkKeepsCount(s: Pool, i: nat)
    requires Inv(s) && i < |s.pcs| && WorkStep(s, i).Step?
    ensures CountOk(WorkStep(s, i).next)
  {
    hide WorkStep, LogOk, LockOk, ReadyOk, TailsOk, QueueOk;
    assert |s.pcs| == |s.tails| by { TailSizes(s); }
    WorkFrame(s, i);
    WorkJobs(s, i);
    if s.pcs[i].Ran? && s.phase in {CheckTails, SleepTails, Returned} {
      assert ReturnedTo(s, i, s.pcs[i].job);
      Taken0(s);
      ZeroMeansFinished(s, s.pcs[i].job);
    }
  }

  lemma TailSizes(s: Pool)
    requires TailsOk(s)
    ensures |s.pcs| == |s.tails|
  {
  }

  lemma Taken0(s: Pool)
    requires QueueOk(s)
    ensures Taken(s) <= s.pushed
  {
  }

  lemma WorkKeepsJobs(s: Pool, i: nat)
    requires QueueOk(s) && JobsOk(s) && i < |s.pcs| == |s.tails| && WorkStep(s, i).Step?
    ensures JobsOk(WorkStep(s, i).next)
  {
    hide WorkStep, Logged;
    WorkFrame(s, i);
    WorkJobs(s, i);
    var t := WorkStep(s, i).next;
    if t.pcs[i].Running? {
      TakesNew(s, t, i);
    } else if t.pcs[i].Ran? {
      ExecutesHeld(s, t, i);
    } else {
      NoNewLog(s, t, i);
      FinishesExecuted(s, t, i);
    }
  }

  /** Only worker `i` has moved. */
  predicate Moved(s: Pool, t: Pool, i: nat) {
    i < |s.pcs| == |t.pcs| && t.pcs == s.pcs[i := t.pcs[i]] && t.pushed == s.pushed
  }

  lemma TakesNew(s: Pool, t: Pool, i: nat)
    requires QueueOk(s) && JobsOk(s) && Moved(s, t, i) && s.pcs[i].Ready? && s.queue != []
    requires t.pcs[i] == Running(s.queue[0]) && t.queue == s.queue[1..] && t.log == s.log && t.finished == s.finished
    ensures JobsOk(t)
  {
    hide Logged;
    assert s.queue[0] == Taken(s) && Taken(t) == Taken(s) + 1;
    forall k: nat, j: nat | HeldBy(t, k, j)
      ensures j < Taken(t) && !Logged(t.log, j) && (k != i ==> HeldBy(s, k, j) && j < Taken(s))
    {
      assert k != i ==> HeldBy(s, k, j);
    }
    assert forall k: nat, j: nat :: ReturnedTo(t, k, j) ==> ReturnedTo(s, k, j);
  }

  lemma ExecutesHeld(s: Pool, t: Pool, i: nat)
    requires JobsOk(s) && Moved(s, t, i) && t.pcs[i].Ran? && s.pcs[i] == Running(t.pcs[i].job)
    requires t.queue == s.queue && t.log == s.log + [RanJob(i, t.pcs[i].job)] && t.finished == s.finished
    ensures JobsOk(t)
  {
    hide Logged;
    var job := t.pcs[i].job;
    assert HeldBy(s, i, job);
    forall j: nat
      ensures Logged(t.log, j) <==> Logged(s.log, j) || j == job
    {
      LoggedMore(s.log, RanJob(i, job), j);
    }
    assert forall k: nat, j: nat :: HeldBy(t, k, j) ==> k != i && HeldBy(s, k, j);
    assert forall k: nat, j: nat :: ReturnedTo(t, k, j) && k != i ==> ReturnedTo(s, k, j);
  }

  lemma NoNewLog(s: Pool, t: Pool, i: nat)
    requires t.log == s.log || t.log == s.log + [RanTail(i)]
    ensures forall j: nat :: Logged(t.log, j) <==> Logged(s.log, j)
  {
    forall j: nat
      ensures Logged(t.log, j) <==> Logged(s.log, j)
    {
      LoggedMore(s.log, RanTail(i), j);
    }
  }

  lemma FinishesExecuted(s: Pool, t: Pool, i: nat)
    requires JobsOk(s) && Moved(s, t, i) && !t.pcs[i].Running? && !t.pcs[i].Ran? && t.queue == s.queue
    requires forall j: nat :: Logged(t.log, j) <==> Logged(s.log, j)
    requires t.finished == if s.pcs[i].Ran? then s.finished + [s.pcs[i].job] else s.finished
    ensures JobsOk(t)
  {
    hide Logged;
    assert s.pcs[i].Ran? ==> ReturnedTo(s, i, s.pcs[i].job);
    assert forall k: nat, j: nat :: HeldBy(t, k, j) ==> HeldBy(s, k, j);
    assert forall k: nat, j: nat :: ReturnedTo(t, k, j) ==> k != i && ReturnedTo(s, k, j);
  }

  /** The workers that owe a tail job: one less when it is reported, the same otherwise. */
  lemma WorkKeepsTails(s: Pool, i: nat)
    requires TailsOk(s) && i < |s.pcs| && WorkStep(s, i).Step?
    ensures TailsOk(WorkStep(s, i).next)
  {
    hide WorkStep;
    WorkFrame(s, i);
    WorkTails(s, i);
    WorkJobs(s, i);
    var t := WorkStep(s, i).next;
    if s.pcs[i].TailRan? {
      assert PendingTails(t) == PendingTails(s) - {i};
    } else {
      assert PendingTails(t) == PendingTails(s);
    }
    hide PendingTails;
    assert forall e :: e in s.log ==> e in t.log;
    assert forall k: nat :: k < |s.pcs| && TailDone(s.pcs[k]) ==> TailDone(t.pcs[k]);
  }

  lemma WorkKeepsInv(s: Pool, i: nat)
    requires Inv(s) && i < |s.pcs| && WorkStep(s, i).Step?
    ensures Inv(WorkStep(s, i).next)
  {
    hide WorkStep, QueueOk, LogOk, JobsOk, LockOk, ReadyOk, CountOk, TailsOk;
    TailSizes(s);
    WorkKeepsQueue(s, i);
    WorkKeepsLog(s, i);
    WorkKeepsJobs(s, i);
    WorkKeepsLock(s, i);
    WorkKeepsReady(s, i);
    WorkKeepsCount(s, i);
    WorkKeepsTails(s, i);
  }

  /** The jobs' part of the invariant looks only at the workers and the history. */
  lemma SameJobs(s: Pool, t: Pool)
    requires JobsOk(s) && t.pcs == s.pcs && t.log == s.log && t.finished == s.finished && Taken(t) == Taken(s)
    ensures JobsOk(t)
  {
    hide Logged;
    assert forall k: nat, j: nat :: (HeldBy(t, k, j) <==> HeldBy(s, k, j)) && (ReturnedTo(t, k, j) <==> ReturnedTo(s, k, j));
  }

  lemma SameTails(s: Pool, t: Pool)
    requires TailsOk(s) && t.pcs == s.pcs && t.tails == s.tails && t.log == s.log && t.numTails == s.numTails
    requires t.phase == Returned ==> t.numTails == 0
    ensures TailsOk(t)
  {
    assert PendingTails(t) == PendingTails(s);
  }

  lemma PushKeepsInv(s: Pool, a: Action)
    requires Inv(s) && (a == Push || a == Count || a == SetNoNew) && |s.pcs| == |s.tails| && Act(s, a, Orderly).Step?
    ensures Inv(Act(s, a, Orderly).next)
  {
    hide LogOk, JobsOk, TailsOk;
    var t := Act(s, a, Orderly).next;
    SameJobs(s, t);
    ReturnedTails(s);
    SameTails(s, t);
    if a == Push {
      assert QueueOk(t);
    }
  }

  lemma ReturnedTails(s: Pool)
    requires TailsOk(s)
    ensures s.phase == Returned ==> s.numTails == 0
  {
  }

  lemma WaitKeepsInv(s: Pool)
    requires Inv(s) && WaitStep(s, Orderly).Step?
    ensures Inv(WaitStep(s, Orderly).next)
  {
    hide LogOk, JobsOk, TailsOk, QueueOk;
    var t := WaitStep(s, Orderly).next;
    SameJobs(s, t);
    SameTails(s, t);
    WaitLocks(s);
    Taken0(s);
    assert QueueOk(t) by { SameQueue(s, t); }
  }

  lemma SameQueue(s: Pool, t: Pool)
    requires QueueOk(s) && t.queue == s.queue && t.pushed == s.pushed
    ensures QueueOk(t)
  {
  }

  /** The waiter's steps and the workers' exclude each other. */
  lemma WaitLocks(s: Pool)
    requires LockOk(s) && ReadyOk(s) && WaitStep(s, Orderly).Step?
    ensures LockOk(WaitStep(s, Orderly).next) && ReadyOk(WaitStep(s, Orderly).next)
  {
  }

  /** Every step keeps the invariant, and no worker pops an empty queue. */
  lemma StepKeepsInv(s: Pool, a: Action)
    requires Inv(s)
    ensures |s.pcs| == |s.tails| && !Act(s, a, Orderly).EmptyPop?
    ensures Act(s, a, Orderly).Step? ==> Inv(Act(s, a, Orderly).next)
  {
    hide WorkStep, WaitStep, QueueOk, LogOk, JobsOk, LockOk, ReadyOk, CountOk, TailsOk;
    TailSizes(s);
    match a
    case Work(i) =>
      if i < |s.pcs| {
        WorkNeverPopsEmpty(s, i);
        if WorkStep(s, i).Step? {
          WorkKeepsInv(s, i);
        }
      }
    case Wait =>
      WaitFrame(s, Orderly);
      if WaitStep(s, Orderly).Step? {
        WaitKeepsInv(s);
      }
    case _ =>
      if Act(s, a, Orderly).Step? {
        PushKeepsInv(s, a);
      }
  }

  // Whole runs

  /** From a new pool, one action after another; every interleaving is such a sequence. */
  predicate Run(states: seq<Pool>, actions: seq<Action>) {
    && |states| == |actions| + 1 && Initial(states[0])
    && forall t: nat :: t < |actions| ==> Follows(states[t], actions[t], states[t + 1])
  }

  predicate Follows(s: Pool, a: Action, t: Pool) {
    |s.pcs| == |s.tails| && Act(s, a, Orderly) == Step(t)
  }

  /** Every job executed exactly once and counted, none left or under way, and every tail job executed. */
  ghost predicate AllDone(s: Pool) {
    && s.queue == [] && LogOk(s.log) && |s.pcs| == |s.tails|
    && (forall j: nat :: j < s.pushed ==> Logged(s.log, j))
    && (forall i: nat :: i < |s.pcs| ==> !s.pcs[i].Running? && !s.pcs[i].Ran?)
    && (forall i: nat :: i < |s.pcs| && s.tails[i] ==> RanTail(i) in s.log)
  }

  lemma {:induction false} RunKeepsInv(states: seq<Pool>, actions: seq<Action>, t: nat)
    requires Run(states, actions) && t < |states|
    ensures Inv(states[t])
  {
    if t == 0 {
      InitialInv(states[0]);
    } else {
      hide Inv, Act;
      RunKeepsInv(states, actions, t - 1);
      assert Follows(states[t - 1], actions[t - 1], states[t]);
      StepKeepsInv(states[t - 1], actions[t - 1]);
    }
  }

  lemma ReturnedIsDone(s: Pool)
    requires Inv(s) && s.phase == Returned
    ensures AllDone(s)
  {
    hide Logged;
    forall j: nat | j < s.pushed
      ensures j in s.finished && Logged(s.log, j)
    {
      ZeroMeansFinished(s, j);
    }
    assert s.pushed > 0 ==> Logged(s.log, s.pushed - 1) && s.pushed - 1 < Taken(s);
    forall i: nat | i < |s.pcs|
      ensures !s.pcs[i].Running? && !s.pcs[i].Ran?
    {
      assert s.pcs[i].Running? ==> HeldBy(s, i, s.pcs[i].job);
      assert s.pcs[i].Ran? ==> ReturnedTo(s, i, s.pcs[i].job);
    }
    NonePending(s);
  }

  lemma NonePending(s: Pool)
    requires TailsOk(s) && s.phase == Returned
    ensures forall i: nat :: i < |s.pcs| && s.tails[i] ==> RanTail(i) in s.log
  {
    assert PendingTails(s) == {};
    forall i: nat | i < |s.pcs| && s.tails[i]
      ensures RanTail(i) in s.log
    {
      assert i !in PendingTails(s);
    }
  }

  /**
   Safety of every run in which pushing is over before the wait starts: no job is executed
   twice, a worker does nothing after its tail job, no worker ever pops an empty queue, and
   the wait returns only when everything is done.
   */
  lemma PoolIsSafe(states: seq<Pool>, actions: seq<Action>, t: nat, a: Action)
    requires Run(states, actions) && t < |states|
    ensures var s := states[t];
            && LogOk(s.log) && |s.pcs| == |s.tails| && !Act(s, a, Orderly).EmptyPop?
            && (s.phase == Returned ==> AllDone(s))
  {
    hide Act, AllDone;
    RunKeepsInv(states, actions, t);
    StepKeepsInv(states[t], a);
    if states[t].phase == Returned {
      ReturnedIsDone(states[t]);
    }
  }

  // Exactly when the pool is safe

  /** The outcome of a sequence of actions. */
  function Result(s: Pool, actions: seq<Action>, client: Client): (r: Outcome)
    requires |s.pcs| == |s.tails|
    decreases actions
  {
    if actions == [] then Step(s)
    else
      match Act(s, actions[0], client)
      case Step(t) => if |t.pcs| == |t.tails| then Result(t, actions[1..], client) else Disabled
      case stopped => stopped
  }

  lemma {:induction false} OrderlyIsSafe(s: Pool, actions: seq<Action>)
    requires Inv(s) && |s.pcs| == |s.tails|
    ensures !Result(s, actions, Orderly).EmptyPop?
    decreases actions
  {
    hide Inv, Act;
    if actions != [] {
      StepKeepsInv(s, actions[0]);
      match Act(s, actions[0], Orderly)
      case Step(t) =>
        if |t.pcs| == |t.tails| {
          OrderlyIsSafe(t, actions[1..]);
        }
      case _ =>
    }
  }

  /**
   With at most one worker every job is finished, queued or in its hands, and the worker past
   the wait finds a job or a counter that nobody will raise.
   */
  predicate Alone(s: Pool) {
    && |s.pcs| == |s.tails| <= 1 && s.total == s.pushed - s.uncounted - |s.finished|
    && (|s.pcs| == 1 ==>
          && |s.finished| + |s.queue| + (if s.pcs[0].Running? || s.pcs[0].Ran? then 1 else 0) == s.pushed
          && (s.pcs[0].Ready? ==> s.queue != [] || s.uncounted == 0))
  }

  lemma AloneSteps(s: Pool, a: Action, client: Client)
    requires Alone(s)
    ensures !Act(s, a, client).EmptyPop? && (Act(s, a, client).Step? ==> Alone(Act(s, a, client).next))
  {
    hide WorkStep;
    match a
    case Push =>
    case Count =>
    case SetNoNew =>
    case Work(i) =>
      if i < |s.pcs| {
        AloneWorks(s);
      }
    case Wait =>
      AloneWaits(s, client);
  }

  lemma AloneWaits(s: Pool, client: Client)
    requires Alone(s)
    ensures !WaitStep(s, client).EmptyPop? && (WaitStep(s, client).Step? ==> Alone(WaitStep(s, client).next))
  {
    WaitFrame(s, client);
    hide WaitStep;
  }

  /** The waiter leaves the jobs and the workers alone. */
  lemma WaitFrame(s: Pool, client: Client)
    ensures !WaitStep(s, client).EmptyPop?
    ensures WaitStep(s, client).Step? ==>
              var t := WaitStep(s, client).next;
              && t.queue == s.queue && t.total == s.total && t.pcs == s.pcs && t.tails == s.tails
              && t.uncounted == s.uncounted && t.pushed == s.pushed && t.finished == s.finished
  {
    match s.phase
    case Idle =>
    case WantLock =>
    case CheckTotal =>
    case SleepTotal =>
    case CheckTails =>
    case SleepTails =>
    case Returned =>
  }

  lemma AloneWorks(s: Pool)
    requires Alone(s) && |s.pcs| == 1
    ensures !WorkStep(s, 0).EmptyPop? && (WorkStep(s, 0).Step? ==> Alone(WorkStep(s, 0).next))
  {
    WorkReady(s, 0);
    if WorkStep(s, 0).Step? {
      WorkFrame(s, 0);
      WorkJobs(s, 0);
    }
    hide WorkStep;
  }

  /** Who pops an empty queue, and who gets past the wait. */
  lemma WorkReady(s: Pool, i: nat)
    requires i < |s.pcs| == |s.tails|
    ensures var r := WorkStep(s, i);
            && (r.EmptyPop? ==> s.pcs[i].Ready? && s.total != 0 && s.queue == [])
            && (r.Step? && i < |r.next.pcs| && r.next.pcs[i].Ready? ==> s.pcs[i].Checking? && (s.queue != [] || s.total == 0))
  {
    match s.pcs[i]
    case Top =>
    case Locked =>
    case Checking =>
    case Sleeping =>
    case Ready =>
    case Running(_) =>
    case Ran(_) =>
    case Leaving =>
    case TailRan =>
    case Halted =>
  }

  lemma {:induction false} AloneIsSafe(s: Pool, actions: seq<Action>, client: Client)
    requires Alone(s)
    ensures !Result(s, actions, client).EmptyPop?
    decreases actions
  {
    hide Act, Alone;
    assert |s.pcs| == |s.tails| by { AloneSizes(s); }
    if actions != [] {
      AloneSteps(s, actions[0], client);
      match Act(s, actions[0], client)
      case Step(t) =>
        if |t.pcs| == |t.tails| {
          AloneIsSafe(t, actions[1..], client);
        }
      case _ =>
    }
  }

  lemma AloneSizes(s: Pool)
    requires Alone(s)
    ensures |s.pcs| == |s.tails|
  {
  }

  /** What the first two workers see. */
  datatype View = View(
    queue: seq<nat>, total: int, noNew: bool, waiting: bool, lock: Owner, first: Pc, second: Pc,
    phase: Phase, uncounted: nat, pushed: nat)

  predicate Sees(s: Pool, v: View) {
    && |s.pcs| == |s.tails| >= 2
    && v == View(s.queue, s.total, s.noNew, s.waiting, s.lock, s.pcs[0], s.pcs[1], s.phase, s.uncounted, s.pushed)
  }

  /** `s` can come to an empty pop. */
  ghost predicate CanPopEmpty(s: Pool, client: Client)
    requires |s.pcs| == |s.tails|
  {
    exists actions :: Result(s, actions, client).EmptyPop?
  }

  /** Prefix an action to a run that ends in an empty pop. */
  lemma After(s: Pool, a: Action, client: Client)
    requires |s.pcs| == |s.tails| && Act(s, a, client).Step?
    requires var t := Act(s, a, client).next; |t.pcs| == |t.tails| && CanPopEmpty(t, client)
    ensures CanPopEmpty(s, client)
  {
    hide Act;
    var t := Act(s, a, client).next;
    var rest :| Result(t, rest, client).EmptyPop?;
    assert ([a] + rest)[1..] == rest;
    assert Result(s, [a] + rest, client).EmptyPop?;
  }

  lemma PopsNow(s: Pool, i: nat, client: Client)
    requires |s.pcs| == |s.tails| && Act(s, Work(i), client).EmptyPop?
    ensures CanPopEmpty(s, client)
  {
    assert Result(s, [Work(i)], client).EmptyPop?;
  }

  /**
   The end of the run. Job 0 is done and worker 0 sleeps; worker 1 has job 1, which is not
   counted yet, so the counter is zero. The wait starts, worker 0 is let through, and then
   the count arrives.
   */
  lemma WaitThenCount(s: Pool, client: Client)
    requires Sees(s, View([], 0, false, false, Nobody, Sleeping, Running(1), Idle, 1, 2)) && client != Orderly
    ensures CanPopEmpty(s, client)
  {
    hide CanPopEmpty;
    var s1 := Act(s, SetNoNew, client).next;
    var s2 := Act(s1, Wait, client).next;
    assert Sees(s2, View([], 0, true, true, Nobody, Sleeping, Running(1), WantLock, 1, 2));
    var s3 := Act(s2, Work(0), client).next;
    var s4 := Act(s3, Work(0), client).next;
    assert Sees(s4, View([], 0, true, true, Worker(0), Ready, Running(1), WantLock, 1, 2));
    var s5 := Act(s4, Count, client).next;
    PopsNow(s5, 0, client);
    After(s4, Count, client);
    After(s3, Work(0), client);
    After(s2, Work(0), client);
    After(s1, Wait, client);
    After(s, SetNoNew, client);
  }

  /** Worker 0 finishes job 0, finds nothing more to do and sleeps. */
  lemma FirstSleeps(s: Pool, client: Client)
    requires Sees(s, View([], 1, false, false, Nobody, Running(0), Running(1), Idle, 1, 2)) && client != Orderly
    ensures CanPopEmpty(s, client)
  {
    hide CanPopEmpty;
    var s1 := Act(s, Work(0), client).next;
    var s2 := Act(s1, Work(0), client).next;
    assert Sees(s2, View([], 0, false, false, Nobody, Top, Running(1), Idle, 1, 2));
    var s3 := Act(s2, Work(0), client).next;
    var s4 := Act(s3, Work(0), client).next;
    assert Sees(s4, View([], 0, false, false, Worker(0), Checking, Running(1), Idle, 1, 2));
    WaitThenCount(Act(s4, Work(0), client).next, client);
    After(s4, Work(0), client);
    After(s3, Work(0), client);
    After(s2, Work(0), client);
    After(s1, Work(0), client);
    After(s, Work(0), client);
  }

  /** Job 1 is pushed and taken by worker 1 before it is counted. */
  lemma SecondTakes(s: Pool, client: Client)
    requires Sees(s, View([], 1, false, false, Nobody, Running(0), Top, Idle, 0, 1)) && client != Orderly
    ensures CanPopEmpty(s, client)
  {
    hide CanPopEmpty;
    var s1 := Act(s, Push, client).next;
    var s2 := Act(s1, Work(1), client).next;
    assert Sees(s2, View([1], 1, false, false, Worker(1), Running(0), Locked, Idle, 1, 2));
    var s3 := Act(s2, Work(1), client).next;
    var s4 := Act(s3, Work(1), client).next;
    assert Sees(s4, View([1], 1, false, false, Worker(1), Running(0), Ready, Idle, 1, 2));
    FirstSleeps(Act(s4, Work(1), client).next, client);
    After(s4, Work(1), client);
    After(s3, Work(1), client);
    After(s2, Work(1), client);
    After(s1, Work(1), client);
    After(s, Push, client);
  }

  /** Job 0 is pushed, counted and taken by worker 0. */
  lemma FirstTakes(s: Pool, client: Client)
    requires Sees(s, View([], 0, false, false, Nobody, Top, Top, Idle, 0, 0)) && client != Orderly
    ensures CanPopEmpty(s, client)
  {
    hide CanPopEmpty;
    var s1 := Act(s, Push, client).next;
    var s2 := Act(s1, Count, client).next;
    assert Sees(s2, View([0], 1, false, false, Nobody, Top, Top, Idle, 0, 1));
    var s3 := Act(s2, Work(0), client).next;
    var s4 := Act(s3, Work(0), client).next;
    assert Sees(s4, View([0], 1, false, false, Worker(0), Checking, Top, Idle, 0, 1));
    var s5 := Act(s4, Work(0), client).next;
    SecondTakes(Act(s5, Work(0), client).next, client);
    After(s5, Work(0), client);
    After(s4, Work(0), client);
    After(s3, Work(0), client);
    After(s2, Work(0), client);
    After(s1, Count, client);
    After(s, Push, client);
  }

  /**
   A worker can pop an empty queue if and only if there are two workers and the wait may
   overlap a push. The uncounted job is taken on the strength of another job's count; when
   that one is done the counter is zero although a job is under way.
   */
  lemma PopsEmptyIff(s: Pool, client: Client)
    requires Initial(s)
    ensures CanPopEmpty(s, client) <==> client != Orderly && |s.pcs| >= 2
  {
    if client == Orderly {
      InitialInv(s);
      forall actions
        ensures !Result(s, actions, client).EmptyPop?
      {
        OrderlyIsSafe(s, actions);
      }
    } else if |s.pcs| < 2 {
      forall actions
        ensures !Result(s, actions, client).EmptyPop?
      {
        AloneIsSafe(s, actions, client);
      }
    } else {
      FirstTakes(s, client);
    }
  }
}
