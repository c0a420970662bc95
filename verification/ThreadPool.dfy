/** The thread pool as a transition system. Every critical section is one step; the check
    for an empty queue and the removal of the worker are two. */
module ThreadPool {
  import opened Optional

  /** Where a worker is. Starting: created, not yet registered; Assigned: its slot holds a
      task; Running: inside the task; TearingDown: the task ended, its onExit is due;
      Deciding: about to look at the queue; Idle: back in the loop without a task;
      Exiting: found the queue empty or was forced to end; Gone: removed. */
  datatype Phase =
    | Starting(task: nat)
    | Assigned(task: nat)
    | Running(task: nat)
    | TearingDown(task: nat, forced: bool)
    | Deciding(forced: bool)
    | Idle
    | Exiting
    | Gone

  /** limit is None for the unlimited pool. Tasks are numbered in the order in which they
      were accepted. The last four components record what happened so far. */
  datatype Pool = Pool(
    limit: Option<nat>,
    queue: seq<nat>,
    workers: seq<Phase>,
    numThreads: nat,
    accepted: nat,
    queued: seq<nat>,
    fetched: seq<nat>,
    starts: seq<nat>,
    exits: seq<nat>)

  /** The critical sections and task calls. A fetch from an empty queue changes nothing and
      is no step. */
  datatype Step =
    | Submit(created: bool)
    | Register(w: nat)
    | Begin(w: nat)
    | Finish(w: nat, threw: bool)
    | Exit(w: nat)
    | Decide(w: nat)
    | Fetch(w: nat)
    | Remove(w: nat)

  function Initial(limit: Option<nat>): Pool {
    Pool(limit, [], [], 0, 0, [], [], [], [])
  }

  predicate Enabled(s: Pool, t: Step) {
    match t
    case Submit(_) => true
    case Register(w) => w < |s.workers| && s.workers[w].Starting?
    case Begin(w) => w < |s.workers| && s.workers[w].Assigned?
    case Finish(w, _) => w < |s.workers| && s.workers[w].Running?
    case Exit(w) => w < |s.workers| && s.workers[w].TearingDown?
    case Decide(w) => w < |s.workers| && s.workers[w].Deciding?
    case Fetch(w) => w < |s.workers| && s.workers[w].Idle? && s.queue != []
    case Remove(w) => w < |s.workers| && s.workers[w].Exiting? && s.numThreads > 0
  }

  predicate AtLimit(s: Pool) {
    s.limit.Some? && s.numThreads >= s.limit.value
  }

  function Apply(s: Pool, t: Step): Pool
    requires Enabled(s, t)
  {
    match t
    case Submit(created) =>
      if AtLimit(s) then
        s.(queue := s.queue + [s.accepted], queued := s.queued + [s.accepted], accepted := s.accepted + 1)
      else if created then
        s.(workers := s.workers + [Starting(s.accepted)], numThreads := s.numThreads + 1, accepted := s.accepted + 1)
      else s
    case Register(w) => s.(workers := s.workers[w := Assigned(s.workers[w].task)])
    case Begin(w) => s.(workers := s.workers[w := Running(s.workers[w].task)], starts := s.starts + [s.workers[w].task])
    case Finish(w, threw) => s.(workers := s.workers[w := TearingDown(s.workers[w].task, threw)])
    case Exit(w) => s.(workers := s.workers[w := Deciding(s.workers[w].forced)], exits := s.exits + [s.workers[w].task])
    case Decide(w) =>
      if s.limit.Some? && |s.queue| > 0 && !s.workers[w].forced then s.(workers := s.workers[w := Idle])
      else s.(workers := s.workers[w := Exiting])
    case Fetch(w) =>
      s.(workers := s.workers[w := Assigned(s.queue[0])], queue := s.queue[1..], fetched := s.fetched + [s.queue[0]])
    case Remove(w) => s.(workers := s.workers[w := Gone], numThreads := s.numThreads - 1)
  }

  // ----- sums over the workers

  /** Whether task t is in the slot of a worker at p. */
  predicate Holds(p: Phase, t: nat) {
    (p.Starting? || p.Assigned? || p.Running? || p.TearingDown?) && p.task == t
  }

  /** Whether a worker at p has started task t and not called its onExit. */
  predicate Underway(p: Phase, t: nat) {
    (p.Running? || p.TearingDown?) && p.task == t
  }

  /** The steps a worker can still take by itself. */
  function Ahead(p: Phase): nat {
    match p
    case Starting(_) => 6
    case Assigned(_) => 5
    case Running(_) => 4
    case TearingDown(_, _) => 3
    case Deciding(_) => 2
    case Idle => 1
    case Exiting => 1
    case Gone => 0
  }

  function One(b: bool): nat { if b then 1 else 0 }

  /** How many slots hold task t. */
  function Slots(ws: seq<Phase>, t: nat): nat {
    if ws == [] then 0 else One(Holds(ws[0], t)) + Slots(ws[1..], t)
  }

  /** How many workers have task t underway. */
  function Busy(ws: seq<Phase>, t: nat): nat {
    if ws == [] then 0 else One(Underway(ws[0], t)) + Busy(ws[1..], t)
  }

  /** The workers that were created and not removed. */
  function Live(ws: seq<Phase>): nat {
    if ws == [] then 0 else One(!ws[0].Gone?) + Live(ws[1..])
  }

  function TotalAhead(ws: seq<Phase>): nat {
    if ws == [] then 0 else Ahead(ws[0]) + TotalAhead(ws[1..])
  }

  lemma {:induction false} SumsUpdate(ws: seq<Phase>, w: nat, p: Phase, t: nat)
    requires w < |ws|
    ensures Slots(ws[w := p], t) + One(Holds(ws[w], t)) == Slots(ws, t) + One(Holds(p, t))
    ensures Busy(ws[w := p], t) + One(Underway(ws[w], t)) == Busy(ws, t) + One(Underway(p, t))
    ensures Live(ws[w := p]) + One(!ws[w].Gone?) == Live(ws) + One(!p.Gone?)
    ensures TotalAhead(ws[w := p]) + Ahead(ws[w]) == TotalAhead(ws) + Ahead(p)
  {
    hide Holds, Underway, Ahead, One;
    if w == 0 {
      assert ws[0 := p][1..] == ws[1..];
    } else {
      assert ws[w := p][1..] == ws[1..][w - 1 := p];
      SumsUpdate(ws[1..], w - 1, p, t);
    }
  }

  lemma {:induction false} SumsAppend(ws: seq<Phase>, p: Phase, t: nat)
    ensures Slots(ws + [p], t) == Slots(ws, t) + One(Holds(p, t))
    ensures Busy(ws + [p], t) == Busy(ws, t) + One(Underway(p, t))
    ensures Live(ws + [p]) == Live(ws) + One(!p.Gone?)
  {
    hide Holds, Underway, One;
    if ws == [] {
      assert (ws + [p])[1..] == [] && (ws + [p])[0] == p;
    } else {
      assert (ws + [p])[1..] == ws[1..] + [p];
      SumsAppend(ws[1..], p, t);
    }
  }

  // ----- the invariant

  /** The thread count is right and within the limit. */
  predicate Counted(s: Pool) {
    && s.numThreads == Live(s.workers) && (s.limit.Some? ==> s.numThreads <= s.limit.value)
    && (s.limit == None ==> s.queue == [])
  }

  /** Task t, if accepted, is in exactly one of queue, worker slot and finished; it was
      started once if it is underway or finished. */
  predicate InOnePlace(s: Pool, t: nat) {
    && multiset(s.queue)[t] + Slots(s.workers, t) + multiset(s.exits)[t] == One(t < s.accepted)
    && multiset(s.starts)[t] == multiset(s.exits)[t] + Busy(s.workers, t)
  }

  /** The tasks fetched so far, followed by those waiting, are the tasks ever queued, in
      the order of their submission. */
  ghost predicate FirstInFirstOut(s: Pool) {
    && s.queued == s.fetched + s.queue
    && (forall i :: 0 <= i < |s.queued| ==> s.queued[i] < s.accepted)
    && (forall i, j :: 0 <= i < j < |s.queued| ==> s.queued[i] < s.queued[j])
  }

  ghost predicate Inv(s: Pool) {
    Counted(s) && FirstInFirstOut(s) && forall t :: InOnePlace(s, t)
  }

  lemma InitialInv(limit: Option<nat>)
    ensures Inv(Initial(limit))
  {
  }

  lemma WorkerStepKeepsPlace(s: Pool, step: Step, t: nat)
    requires InOnePlace(s, t) && Enabled(s, step) && !step.Submit?
    ensures InOnePlace(Apply(s, step), t)
  {
    hide InOnePlace, Apply;
    if step.Fetch? {
      FetchKeepsPlace(s, step.w, t);
    } else if step.Begin? {
      BeginKeepsPlace(s, step.w, t);
    } else if step.Exit? {
      ExitKeepsPlace(s, step.w, t);
    } else {
      PhaseKeepsPlace(s, step, t);
    }
  }

  /** A step that only moves its worker on, from one slot state to another or between two
      without a task. */
  lemma PhaseKeepsPlace(s: Pool, step: Step, t: nat)
    requires InOnePlace(s, t) && Enabled(s, step) && (step.Register? || step.Finish? || step.Decide? || step.Remove?)
    ensures InOnePlace(Apply(s, step), t)
  {
    hide Slots, Busy, Live, TotalAhead, Ahead;
    SumsUpdate(s.workers, step.w, Apply(s, step).workers[step.w], t);
  }

  lemma BeginKeepsPlace(s: Pool, w: nat, t: nat)
    requires InOnePlace(s, t) && Enabled(s, Begin(w))
    ensures InOnePlace(Apply(s, Begin(w)), t)
  {
    hide Slots, Busy, Live, TotalAhead, Ahead;
    SumsUpdate(s.workers, w, Running(s.workers[w].task), t);
  }

  lemma ExitKeepsPlace(s: Pool, w: nat, t: nat)
    requires InOnePlace(s, t) && Enabled(s, Exit(w))
    ensures InOnePlace(Apply(s, Exit(w)), t)
  {
    hide Slots, Busy, Live, TotalAhead, Ahead;
    SumsUpdate(s.workers, w, Deciding(s.workers[w].forced), t);
  }

  lemma FetchKeepsPlace(s: Pool, w: nat, t: nat)
    requires InOnePlace(s, t) && Enabled(s, Fetch(w))
    ensures InOnePlace(Apply(s, Fetch(w)), t)
  {
    hide Slots, Busy, Live, TotalAhead, Ahead;
    SumsUpdate(s.workers, w, Assigned(s.queue[0]), t);
    assert s.queue == [s.queue[0]] + s.queue[1..];
  }

  lemma SubmitKeepsPlace(s: Pool, created: bool, t: nat)
    requires InOnePlace(s, t)
    ensures InOnePlace(Apply(s, Submit(created)), t)
  {
    hide Slots, Busy;
    SumsAppend(s.workers, Starting(s.accepted), t);
  }

  lemma StepKeepsCount(s: Pool, step: Step)
    requires Counted(s) && Enabled(s, step)
    ensures Counted(Apply(s, step))
  {
    hide Live;
    if step.Submit? {
      SumsAppend(s.workers, Starting(s.accepted), 0);
    } else {
      SumsUpdate(s.workers, step.w, Apply(s, step).workers[step.w], 0);
    }
  }

  lemma StepKeepsOrder(s: Pool, step: Step)
    requires FirstInFirstOut(s) && Enabled(s, step)
    ensures FirstInFirstOut(Apply(s, step))
  {
    var r := Apply(s, step);
    if step.Fetch? {
      assert s.queue == [s.queue[0]] + s.queue[1..];
    }
    assert r.queued == r.fetched + r.queue;
  }

  /** Every step of every interleaving keeps the invariant. */
  lemma StepKeeps(s: Pool, step: Step)
    requires Inv(s) && Enabled(s, step)
    ensures Inv(Apply(s, step))
  {
    hide Counted, FirstInFirstOut, InOnePlace, Apply;
    StepKeepsCount(s, step);
    StepKeepsOrder(s, step);
    forall t
      ensures InOnePlace(Apply(s, step), t)
    {
      if step.Submit? {
        SubmitKeepsPlace(s, step.created, t);
      } else {
        WorkerStepKeepsPlace(s, step, t);
      }
    }
  }

  // ----- the two decisions

  /** A submission is queued exactly if as many workers are alive as the limit allows, and then
      behind all others; below the limit it gets a worker of its own, or is refused. */
  lemma SubmissionExactly(s: Pool, created: bool)
    requires Inv(s)
    ensures var r := Apply(s, Submit(created));
            && (r.queue == s.queue <==> s.limit == None || Live(s.workers) < s.limit.value)
            && (r.queue == s.queue && created ==>
                  r.workers == s.workers + [Starting(s.accepted)] && r.accepted == s.accepted + 1)
            && (r.queue == s.queue && !created ==> r == s)
            && (r.queue != s.queue ==>
                  r.queue == s.queue + [s.accepted] && r.workers == s.workers && r.accepted == s.accepted + 1)
  {
    hide Live, FirstInFirstOut, InOnePlace;
    assert s.queue + [s.accepted] != s.queue;
  }

  /** A worker whose task has ended leaves exactly if the task threw or nothing waits. */
  lemma DecisionExactly(s: Pool, w: nat)
    requires Inv(s) && Enabled(s, Decide(w))
    ensures var r, leaves := Apply(s, Decide(w)), s.workers[w].forced || s.queue == [];
            r == s.(workers := s.workers[w := if leaves then Exiting else Idle])
  {
    hide Live, FirstInFirstOut, InOnePlace;
  }

  // ----- runs

  ghost predicate Possible(s: Pool, run: seq<Step>)
    decreases |run|
  {
    run == [] || (Enabled(s, run[0]) && Possible(Apply(s, run[0]), run[1..]))
  }

  function After(s: Pool, run: seq<Step>): Pool
    requires Possible(s, run)
    decreases |run|
  {
    if run == [] then s else After(Apply(s, run[0]), run[1..])
  }

  lemma {:induction false} RunKeeps(s: Pool, run: seq<Step>)
    requires Inv(s) && Possible(s, run)
    ensures Inv(After(s, run))
    decreases |run|
  {
    hide Inv, Apply;
    if run != [] {
      StepKeeps(s, run[0]);
      RunKeeps(Apply(s, run[0]), run[1..]);
    }
  }

  /** Safety, over all interleavings: the thread count is the number of live workers and
      within the limit; no task is started or ended twice; and no task is fetched before
      one that was submitted earlier. */
  lemma Safety(limit: Option<nat>, run: seq<Step>)
    requires Possible(Initial(limit), run)
    ensures var s := After(Initial(limit), run);
            && s.numThreads == Live(s.workers) && (s.limit.Some? ==> Live(s.workers) <= s.limit.value)
            && (forall t :: multiset(s.exits)[t] <= multiset(s.starts)[t] <= 1)
            && (forall i, j :: 0 <= i < j < |s.fetched| ==> s.fetched[i] < s.fetched[j])
            && (forall i, j :: 0 <= i < |s.fetched| && 0 <= j < |s.queue| ==> s.fetched[i] < s.queue[j])
  {
    hide FirstInFirstOut, Live, Busy, Slots, Apply, Initial;
    InitialInv(limit);
    RunKeeps(Initial(limit), run);
    var s := After(Initial(limit), run);
    forall t
      ensures multiset(s.exits)[t] <= multiset(s.starts)[t] <= 1
    {
      assert InOnePlace(s, t);
      BusyHolds(s.workers, t);
    }
    FetchedInOrder(s);
  }

  lemma FetchedInOrder(s: Pool)
    requires FirstInFirstOut(s)
    ensures forall i, j :: 0 <= i < j < |s.fetched| ==> s.fetched[i] < s.fetched[j]
    ensures forall i, j :: 0 <= i < |s.fetched| && 0 <= j < |s.queue| ==> s.fetched[i] < s.queue[j]
  {
    forall i, j | 0 <= i < |s.fetched| && 0 <= j < |s.queue|
      ensures s.fetched[i] < s.queue[j]
    {
      assert s.queued[i] == s.fetched[i] && s.queued[|s.fetched| + j] == s.queue[j];
    }
    forall i, j | 0 <= i < j < |s.fetched|
      ensures s.fetched[i] < s.fetched[j]
    {
      assert s.queued[i] == s.fetched[i] && s.queued[j] == s.fetched[j];
    }
  }

  lemma {:induction false} BusyHolds(ws: seq<Phase>, t: nat)
    ensures Busy(ws, t) <= Slots(ws, t)
  {
    if ws != [] {
      BusyHolds(ws[1..], t);
    }
  }

  // ----- completeness

  /** A worker that will still look for another task. */
  predicate Serving(p: Phase) {
    !p.Gone? && !p.Exiting? && !(p.TearingDown? && p.forced) && !(p.Deciding? && p.forced)
  }

  /** Some worker will still look at a queue that is not empty. */
  ghost predicate Served(s: Pool) {
    s.queue != [] ==> exists w :: 0 <= w < |s.workers| && Serving(s.workers[w])
  }

  ghost predicate OnlyServing(s: Pool, w: nat) {
    forall v :: 0 <= v < |s.workers| && Serving(s.workers[v]) ==> v == w
  }

  /** The two ways to strand the queue: a task is queued while every worker is leaving, or
      the task of the only worker not leaving throws while others wait. */
  ghost predicate Strands(s: Pool, step: Step) {
    || (step.Submit? && AtLimit(s) && forall w :: 0 <= w < |s.workers| ==> !Serving(s.workers[w]))
    || (step.Finish? && step.threw && s.queue != [] && OnlyServing(s, step.w))
  }

  /** A step leaves the queue without a worker exactly if it is one of those two. */
  lemma StepServes(s: Pool, step: Step)
    requires Inv(s) && Enabled(s, step) && Served(s)
    ensures Served(Apply(s, step)) <==> !Strands(s, step)
  {
    hide InOnePlace, FirstInFirstOut, Live;
    var r := Apply(s, step);
    if step.Submit? {
      if AtLimit(s) && !Strands(s, step) {
        var w :| 0 <= w < |s.workers| && Serving(s.workers[w]);
        assert Serving(r.workers[w]);
      } else if !AtLimit(s) && step.created {
        assert Serving(r.workers[|s.workers|]);
      }
    } else if r.queue != [] {
      var v :| 0 <= v < |s.workers| && Serving(s.workers[v]);
      if v != step.w {
        assert Serving(r.workers[v]);
      }
      if step.Finish? && step.threw {
        if !OnlyServing(s, step.w) {
          var u :| 0 <= u < |s.workers| && Serving(s.workers[u]) && u != step.w;
          assert Serving(r.workers[u]);
        } else {
          assert forall u :: 0 <= u < |r.workers| && u != step.w ==> r.workers[u] == s.workers[u];
        }
      } else if Serving(s.workers[step.w]) {
        assert Serving(r.workers[step.w]);
      }
    }
  }

  /** Whether a step is a submission that creates a worker. */
  predicate Creates(s: Pool, step: Step) {
    step.Submit? && !AtLimit(s) && step.created
  }

  /** Only a submission that creates a worker brings a stranded queue back. */
  lemma StepRecovers(s: Pool, step: Step)
    requires Inv(s) && Enabled(s, step) && !Served(s)
    ensures Served(Apply(s, step)) <==> Creates(s, step)
  {
    hide InOnePlace, FirstInFirstOut, Live;
    var r := Apply(s, step);
    if step.Submit? && !AtLimit(s) && step.created {
      assert Serving(r.workers[|s.workers|]);
    } else {
      assert r.queue != [];
      assert forall w :: 0 <= w < |r.workers| ==> !Serving(r.workers[w]);
    }
  }

  /** The steps that are left, submissions aside. */
  function Measure(s: Pool): nat {
    5 * |s.queue| + TotalAhead(s.workers)
  }

  /** Every step that is no submission brings the end one step closer. */
  lemma StepCounts(s: Pool, step: Step)
    requires Enabled(s, step) && !step.Submit?
    ensures Measure(Apply(s, step)) + 1 == Measure(s)
  {
    hide TotalAhead;
    SumsUpdate(s.workers, step.w, Apply(s, step).workers[step.w], 0);
  }

  ghost predicate NeverStrands(s: Pool, run: seq<Step>)
    requires Possible(s, run)
    decreases |run|
  {
    run == [] || (!Strands(s, run[0]) && NeverStrands(Apply(s, run[0]), run[1..]))
  }

  /** Whether some step of the run creates a worker and none after it strands the queue. */
  ghost predicate RecoversForGood(s: Pool, run: seq<Step>)
    requires Possible(s, run)
    decreases |run|
  {
    && run != []
    && var r := Apply(s, run[0]);
       (Creates(s, run[0]) && NeverStrands(r, run[1..])) || RecoversForGood(r, run[1..])
  }

  /** Over any run, submissions included, the queue is served at the end exactly if it was at
      the start and was never stranded, or a worker was created after it was stranded last. */
  lemma {:induction false} RunServesExactly(s: Pool, run: seq<Step>)
    requires Inv(s) && Possible(s, run)
    ensures Served(After(s, run)) <==> (Served(s) && NeverStrands(s, run)) || RecoversForGood(s, run)
    decreases |run|
  {
    hide Inv, Served, Strands, Creates, Apply;
    if run != [] {
      StepKeeps(s, run[0]);
      CreatingStrandsNothing(s, run[0]);
      if Served(s) {
        StepServes(s, run[0]);
      } else {
        StepRecovers(s, run[0]);
      }
      RunServesExactly(Apply(s, run[0]), run[1..]);
    }
  }

  lemma CreatingStrandsNothing(s: Pool, step: Step)
    ensures Creates(s, step) ==> !Strands(s, step)
  {
  }

  lemma {:induction false} NoSubmissionNoRecovery(s: Pool, run: seq<Step>)
    requires Possible(s, run) && forall i :: 0 <= i < |run| ==> !run[i].Submit?
    ensures !RecoversForGood(s, run)
    decreases |run|
  {
    hide Apply;
    if run != [] {
      NoSubmissionNoRecovery(Apply(s, run[0]), run[1..]);
    }
  }

  /** Once submissions have stopped, a run has at most as many steps as the measure says. */
  lemma {:induction false} RunCounts(s: Pool, run: seq<Step>)
    requires Possible(s, run) && forall i :: 0 <= i < |run| ==> !run[i].Submit?
    ensures Measure(After(s, run)) + |run| == Measure(s) && After(s, run).accepted == s.accepted
    decreases |run|
  {
    hide Measure;
    if run != [] {
      StepCounts(s, run[0]);
      RunCounts(Apply(s, run[0]), run[1..]);
    }
  }

  /** No step but a submission can be taken: only spinning or removed workers are left. */
  ghost predicate Stuck(s: Pool) {
    forall step :: Enabled(s, step) ==> step.Submit?
  }

  /** Each of the first n tasks has been ended, and ended once. */
  ghost predicate AllEndedOnce(s: Pool, n: nat) {
    forall t: nat :: t < n ==> multiset(s.exits)[t] == 1
  }

  lemma StuckWorkers(s: Pool, w: nat)
    requires Inv(s) && Stuck(s) && w < |s.workers|
    ensures s.workers[w].Gone? || (s.workers[w].Idle? && s.queue == [])
  {
    hide InOnePlace, FirstInFirstOut;
    if !s.workers[w].Gone? {
      LivePositive(s.workers, w);
    }
    assert !Enabled(s, Register(w)) && !Enabled(s, Begin(w)) && !Enabled(s, Finish(w, false));
    assert !Enabled(s, Exit(w)) && !Enabled(s, Decide(w)) && !Enabled(s, Fetch(w)) && !Enabled(s, Remove(w));
  }

  lemma {:induction false} NothingHeld(ws: seq<Phase>, t: nat)
    requires forall w :: 0 <= w < |ws| ==> ws[w].Gone? || ws[w].Idle?
    ensures Slots(ws, t) == 0
  {
    if ws != [] {
      NothingHeld(ws[1..], t);
    }
  }

  lemma {:induction false} LivePositive(ws: seq<Phase>, w: nat)
    requires w < |ws| && !ws[w].Gone?
    ensures Live(ws) > 0
  {
    if w > 0 {
      LivePositive(ws[1..], w - 1);
    }
  }

  /** Completeness, exactly, over whole runs: when no step but a submission is left, each
      accepted task has been ended, and ended once, if and only if the queue was never stranded,
      or a worker was created after it was stranded last. */
  lemma RunEndsAll(limit: Option<nat>, run: seq<Step>)
    requires Possible(Initial(limit), run) && Stuck(After(Initial(limit), run))
    ensures var r := After(Initial(limit), run);
            AllEndedOnce(r, r.accepted) <==> NeverStrands(Initial(limit), run) || RecoversForGood(Initial(limit), run)
  {
    hide Apply, Strands, Creates;
    InitialInv(limit);
    RunKeeps(Initial(limit), run);
    RunServesExactly(Initial(limit), run);
    AllEnded(After(Initial(limit), run));
  }

  /** Once submissions stop, after any history, every further run is bounded; and when no step
      is left, every accepted task has ended once if and only if the history left the queue
      served and the run has not stranded it. */
  lemma Completeness(limit: Option<nat>, history: seq<Step>, run: seq<Step>)
    requires Possible(Initial(limit), history) && Possible(After(Initial(limit), history), run)
    requires forall i :: 0 <= i < |run| ==> !run[i].Submit?
    ensures var (s, r) := (After(Initial(limit), history), After(After(Initial(limit), history), run));
            && |run| <= Measure(s)
            && (Served(s) <==> NeverStrands(Initial(limit), history) || RecoversForGood(Initial(limit), history))
            && (Stuck(r) ==> (AllEndedOnce(r, s.accepted) <==> Served(s) && NeverStrands(s, run)))
  {
    hide Apply, Strands, Creates, Measure;
    InitialInv(limit);
    RunKeeps(Initial(limit), history);
    RunServesExactly(Initial(limit), history);
    var s := After(Initial(limit), history);
    RunKeeps(s, run);
    RunServesExactly(s, run);
    NoSubmissionNoRecovery(s, run);
    RunCounts(s, run);
    var r := After(s, run);
    if Stuck(r) {
      AllEnded(r);
    }
  }

  /** With no step left, every accepted task has ended exactly if the queue is served, which
      means that it is empty. */
  lemma AllEnded(r: Pool)
    requires Inv(r) && Stuck(r)
    ensures Served(r) <==> r.queue == []
    ensures Served(r) <==> AllEndedOnce(r, r.accepted)
  {
    hide InOnePlace, FirstInFirstOut;
    forall w | 0 <= w < |r.workers|
      ensures r.workers[w].Gone? || (r.workers[w].Idle? && r.queue == [])
    {
      StuckWorkers(r, w);
    }
    assert Served(r) <==> r.queue == [];
    if r.queue == [] {
      forall t: nat | t < r.accepted
        ensures multiset(r.exits)[t] == 1
      {
        EndedAlone(r, t);
      }
    } else {
      QueuedNotEnded(r);
    }
  }

  lemma QueuedNotEnded(r: Pool)
    requires Inv(r) && r.queue != []
    ensures r.queue[0] < r.accepted && multiset(r.exits)[r.queue[0]] == 0
  {
    var t := r.queue[0];
    assert t in r.queue && t in multiset(r.queue);
    assert InOnePlace(r, t);
  }

  lemma EndedAlone(r: Pool, t: nat)
    requires InOnePlace(r, t) && t < r.accepted && r.queue == []
    requires forall w :: 0 <= w < |r.workers| ==> r.workers[w].Gone? || r.workers[w].Idle?
    ensures multiset(r.exits)[t] == 1
  {
    NothingHeld(r.workers, t);
    assert multiset(r.queue) == multiset{};
  }

  lemma OneStep(s: Pool, step: Step, rest: seq<Step>, r: Pool)
    requires Enabled(s, step) && Apply(s, step) == r && Possible(r, rest)
    ensures Possible(s, [step] + rest) && After(s, [step] + rest) == After(r, rest)
  {
    assert ([step] + rest)[1..] == rest;
  }

  /** The pool of one thread while its first task is torn down, and after that. */
  const TORN_DOWN := Pool(Some(1), [], [TearingDown(0, false)], 1, 1, [], [], [0], [])
  const STRANDED := Pool(Some(1), [1], [Gone], 0, 2, [1], [], [0], [0])

  lemma GapTail()
    ensures var run := [Exit(0), Decide(0), Submit(true), Remove(0)];
            Possible(TORN_DOWN, run) && After(TORN_DOWN, run) == STRANDED
  {
    var s5 := TORN_DOWN.(workers := [Deciding(false)], exits := [0]);
    var s6 := s5.(workers := [Exiting]);
    var s7 := s6.(queue := [1], queued := [1], accepted := 2);
    OneStep(s7, Remove(0), [], STRANDED);
    OneStep(s6, Submit(true), [Remove(0)], s7);
    OneStep(s5, Decide(0), [Submit(true), Remove(0)], s6);
    OneStep(TORN_DOWN, Exit(0), [Decide(0), Submit(true), Remove(0)], s5);
  }

  /** The gap between the two critical sections: a task queued while the only worker is on
      its way out is never run, although the pool is then empty. */
  lemma QueuedIntoTheGap()
    ensures var run := [Submit(true), Register(0), Begin(0), Finish(0, false), Exit(0), Decide(0), Submit(true),
                        Remove(0)];
            Possible(Initial(Some(1)), run) && After(Initial(Some(1)), run) == STRANDED
    ensures STRANDED.queue == [1] && STRANDED.numThreads == 0 && Stuck(STRANDED)
  {
    var tail := [Exit(0), Decide(0), Submit(true), Remove(0)];
    var s1 := Pool(Some(1), [], [Starting(0)], 1, 1, [], [], [], []);
    var s2 := s1.(workers := [Assigned(0)]);
    var s3 := s1.(workers := [Running(0)], starts := [0]);
    GapTail();
    OneStep(s3, Finish(0, false), tail, TORN_DOWN);
    OneStep(s2, Begin(0), [Finish(0, false)] + tail, s3);
    OneStep(s1, Register(0), [Begin(0)] + ([Finish(0, false)] + tail), s2);
    OneStep(Initial(Some(1)), Submit(true), [Register(0)] + ([Begin(0)] + ([Finish(0, false)] + tail)), s1);
    assert [Submit(true)] + ([Register(0)] + ([Begin(0)] + ([Finish(0, false)] + tail)))
        == [Submit(true), Register(0), Begin(0), Finish(0, false), Exit(0), Decide(0), Submit(true), Remove(0)];
  }

  /** Stranded is not lost: a later submission below the limit creates a worker that serves
      the queue again. */
  lemma LaterSubmissionServes()
    ensures Enabled(STRANDED, Submit(true)) && !Served(STRANDED) && Served(Apply(STRANDED, Submit(true)))
  {
    assert Serving(Apply(STRANDED, Submit(true)).workers[1]);
  }
}
