/** The worker pool of test.py as interleaved steps of the main thread, the workers and the interrupt handler. */
module WorkerPool {
  import opened Common

  datatype Job = Job(isSkip: bool)

  datatype Config = Config(jobs: seq<Job>, processors: nat)

  // What is put on the input queue.
  datatype Item = Work(id: nat) | Break

  // How a job comes back: with is_break set by the worker, with is_skip, or with a return code.
  datatype Outcome = Interrupted | Skipped | Code(returncode: int)

  datatype Result = Result(id: nat, outcome: Outcome)

  datatype Worker =
    | Idle                    // about to call input_queue.get()
    | Got(id: nat)            // has a job, has not looked at thread_exit yet
    | Launched(id: nat)       // runs the job
    | Reporting(r: Result)    // about to call output_queue.put()
    | Exited

  datatype Tally = Tally(passed: nat, failed: nat, valgrind: nat, crashed: nat, skipped: nat)

  // put counts what main has put on the input queue; log is what main has taken from the output queue.
  datatype State = State(put: nat, input: seq<Item>, workers: seq<Worker>, output: seq<Result>, threadExit: bool,
                         log: seq<Result>, tally: Tally, joined: nat, done: bool)

  datatype Step =
    | Put                             // main: dispatch the next job, or the next break
    | Get(w: nat)
    | Check(w: nat)
    | Finish(w: nat, returncode: int)
    | Report(w: nat)
    | Collect                         // main
    | Join                            // main
    | Return                          // main
    | Interrupt                       // the signal handler

  function Stream(c: Config, k: nat): Item {
    if k < |c.jobs| then Work(k) else Break
  }

  function Total(c: Config): nat {
    |c.jobs| + c.processors
  }

  function Init(c: Config): State {
    State(0, [], seq(c.processors, _ => Idle), [], false, [], Tally(0, 0, 0, 0, 0), 0, false)
  }

  predicate Enabled(c: Config, s: State, step: Step) {
    match step
    case Put => s.put < Total(c)
    case Get(w) => w < |s.workers| && s.workers[w].Idle? && |s.input| > 0
    case Check(w) => w < |s.workers| && s.workers[w].Got? && s.workers[w].id < |c.jobs|
    case Finish(w, _) => w < |s.workers| && s.workers[w].Launched?
    case Report(w) => w < |s.workers| && s.workers[w].Reporting?
    case Collect => s.put == Total(c) && |s.log| < |c.jobs| && |s.output| > 0
    case Join => s.put == Total(c) && |s.log| == |c.jobs| && s.joined < |s.workers| && s.workers[s.joined].Exited?
    case Return => s.put == Total(c) && |s.log| == |c.jobs| && s.joined == |s.workers| && !s.done
    case Interrupt => !s.threadExit
  }

  // What main does with one result.
  function Count(t: Tally, o: Outcome): Tally {
    match o
    case Interrupted => t
    case Skipped => t.(skipped := t.skipped + 1)
    case Code(rc) =>
      if rc == 0 then t.(passed := t.passed + 1)
      else if rc == 1 then t.(failed := t.failed + 1)
      else if rc == 2 then t.(valgrind := t.valgrind + 1)
      else t.(crashed := t.crashed + 1)
  }

  function Apply(c: Config, s: State, step: Step): State
    requires Enabled(c, s, step)
  {
    match step
    case Put => s.(put := s.put + 1, input := s.input + [Stream(c, s.put)])
    case Get(w) =>
      var worker := if s.input[0].Break? then Exited else Got(s.input[0].id);
      s.(input := s.input[1..], workers := s.workers[w := worker])
    case Check(w) =>
      var id := s.workers[w].id;
      var worker := if s.threadExit then Reporting(Result(id, Interrupted))
                    else if c.jobs[id].isSkip then Reporting(Result(id, Skipped))
                    else Launched(id);
      s.(workers := s.workers[w := worker])
    case Finish(w, rc) => s.(workers := s.workers[w := Reporting(Result(s.workers[w].id, Code(rc)))])
    case Report(w) => s.(output := s.output + [s.workers[w].r], workers := s.workers[w := Idle])
    case Collect =>
      var tally := Count(s.tally, s.output[0].outcome);
      s.(output := s.output[1..], log := s.log + [s.output[0]], tally := tally)
    case Join => s.(joined := s.joined + 1)
    case Return => s.(done := true)
    case Interrupt => s.(threadExit := true)
  }

  // The exit status: passed_tests + skipped_tests == total_tests.
  function ExitCode(c: Config, s: State): int {
    if s.tally.passed + s.tally.skipped == |c.jobs| then 0 else 1
  }

  // ----- where the jobs are -----

  ghost function HoldsJob(w: Worker, id: nat): nat {
    match w
    case Got(j) => if j == id then 1 else 0
    case Launched(j) => if j == id then 1 else 0
    case Reporting(r) => if r.id == id then 1 else 0
    case _ => 0
  }

  // How many workers hold the job, and how many results are about it.
  ghost function Held(ws: seq<Worker>, id: nat): nat {
    if |ws| == 0 then 0 else Held(ws[..|ws| - 1], id) + HoldsJob(ws[|ws| - 1], id)
  }

  ghost function Results(rs: seq<Result>, id: nat): nat {
    if |rs| == 0 then 0 else Results(rs[..|rs| - 1], id) + if rs[|rs| - 1].id == id then 1 else 0
  }

  ghost function ExitedCount(ws: seq<Worker>): nat {
    if |ws| == 0 then 0 else ExitedCount(ws[..|ws| - 1]) + if ws[|ws| - 1].Exited? then 1 else 0
  }

  lemma {:induction false} UpdateWorker(ws: seq<Worker>, w: nat, x: Worker, id: nat)
    requires w < |ws|
    ensures Held(ws[w := x], id) + HoldsJob(ws[w], id) == Held(ws, id) + HoldsJob(x, id)
    ensures ExitedCount(ws[w := x]) + (if ws[w].Exited? then 1 else 0) == ExitedCount(ws) + if x.Exited? then 1 else 0
  {
    var vs := ws[w := x];
    if w < |ws| - 1 {
      UpdateWorker(ws[..|ws| - 1], w, x, id);
      assert vs[..|ws| - 1] == ws[..|ws| - 1][w := x];
    } else {
      assert vs[..|ws| - 1] == ws[..|ws| - 1];
    }
  }

  lemma {:induction false} PopResult(rs: seq<Result>, id: nat)
    requires |rs| > 0
    ensures Results(rs, id) == Results(rs[1..], id) + if rs[0].id == id then 1 else 0
  {
    if |rs| > 1 {
      PopResult(rs[..|rs| - 1], id);
      assert rs[..|rs| - 1][1..] == rs[1..][..|rs| - 2];
    }
  }

  lemma {:induction false} PushResult(rs: seq<Result>, r: Result, id: nat)
    ensures Results(rs + [r], id) == Results(rs, id) + if r.id == id then 1 else 0
  {
  }

  lemma {:induction false} CountExited(ws: seq<Worker>)
    ensures ExitedCount(ws) <= |ws|
    ensures ExitedCount(ws) == |ws| <==> forall w :: 0 <= w < |ws| ==> ws[w].Exited?
    ensures ExitedCount(ws) == 0 <==> forall w :: 0 <= w < |ws| ==> !ws[w].Exited?
  {
    if |ws| > 0 {
      CountExited(ws[..|ws| - 1]);
    }
  }

  lemma {:induction false} Holder(ws: seq<Worker>, id: nat) returns (w: nat)
    requires Held(ws, id) > 0
    ensures w < |ws| && HoldsJob(ws[w], id) == 1
  {
    w := |ws| - 1;
    if HoldsJob(ws[w], id) == 0 {
      w := Holder(ws[..|ws| - 1], id);
    }
  }

  // Results about the jobs 0..k-1.
  ghost function ResultsBelow(rs: seq<Result>, k: nat): nat {
    if k == 0 then 0 else ResultsBelow(rs, k - 1) + Results(rs, k - 1)
  }

  lemma {:induction false} ResultsBelowStep(rs: seq<Result>, k: nat)
    requires |rs| > 0
    ensures ResultsBelow(rs, k) == ResultsBelow(rs[..|rs| - 1], k) + if rs[|rs| - 1].id < k then 1 else 0
  {
    if k > 0 {
      ResultsBelowStep(rs, k - 1);
    }
  }

  lemma {:induction false} ResultsBelowBound(rs: seq<Result>, k: nat)
    ensures ResultsBelow(rs, k) <= |rs|
  {
    if |rs| == 0 {
      NoResults(k);
    } else {
      ResultsBelowStep(rs, k);
      ResultsBelowBound(rs[..|rs| - 1], k);
    }
  }

  lemma {:induction false} NoResults(k: nat)
    ensures ResultsBelow([], k) == 0
  {
    if k > 0 {
      NoResults(k - 1);
    }
  }

  // When every job below k has a result, there are at least k results.
  lemma {:induction false} EnoughResults(rs: seq<Result>, k: nat)
    requires forall id: nat :: id < k ==> Results(rs, id) >= 1
    ensures ResultsBelow(rs, k) >= k
  {
    if k > 0 {
      EnoughResults(rs, k - 1);
    }
  }

  // ----- the invariant -----

  // Items taken from the input queue so far.
  ghost function Taken(s: State): int {
    s.put - |s.input|
  }

  ghost function JobsTaken(c: Config, s: State): nat
    requires Taken(s) >= 0
  {
    if Taken(s) < |c.jobs| then Taken(s) else |c.jobs|
  }

  // The queue is first-in first-out: it holds the stream of items that are put but not taken.
  ghost predicate QueueInv(c: Config, s: State) {
    && s.put <= Total(c) && 0 <= Taken(s)
    && forall k :: 0 <= k < |s.input| ==> s.input[k] == Stream(c, Taken(s) + k)
  }

  ghost function PlacesOf(s: State, id: nat): nat {
    Held(s.workers, id) + Results(s.output, id) + Results(s.log, id)
  }

  // Every job taken is in exactly one place, and every break taken is one exited worker.
  ghost predicate PlaceInv(c: Config, s: State)
    requires Taken(s) >= 0
  {
    && |s.workers| == c.processors
    && (forall id: nat :: PlacesOf(s, id) == if id < JobsTaken(c, s) then 1 else 0)
    && ExitedCount(s.workers) == Taken(s) - JobsTaken(c, s)
  }

  ghost predicate Honest(c: Config, exit: bool, r: Result) {
    && r.id < |c.jobs|
    && (r.outcome.Interrupted? ==> exit)
    && (r.outcome.Skipped? ==> c.jobs[r.id].isSkip)
    && (r.outcome.Code? ==> !c.jobs[r.id].isSkip)
  }

  ghost predicate HonestWorker(c: Config, exit: bool, w: Worker) {
    match w
    case Got(id) => id < |c.jobs|
    case Launched(id) => id < |c.jobs| && !c.jobs[id].isSkip
    case Reporting(r) => Honest(c, exit, r)
    case _ => true
  }

  ghost predicate OutcomeInv(c: Config, s: State) {
    && (forall w :: 0 <= w < |s.workers| ==> HonestWorker(c, s.threadExit, s.workers[w]))
    && (forall k :: 0 <= k < |s.output| ==> Honest(c, s.threadExit, s.output[k]))
    && (forall k :: 0 <= k < |s.log| ==> Honest(c, s.threadExit, s.log[k]))
    && s.tally == TallyOf(s.log)
  }

  ghost function TallyOf(log: seq<Result>): Tally {
    if |log| == 0 then Tally(0, 0, 0, 0, 0) else Count(TallyOf(log[..|log| - 1]), log[|log| - 1].outcome)
  }

  ghost predicate JoinInv(c: Config, s: State) {
    && s.joined <= |s.workers|
    && (forall w :: 0 <= w < s.joined ==> s.workers[w].Exited?)
    && (s.joined > 0 || s.done ==> s.put == Total(c) && |s.log| == |c.jobs|)
    && (s.done ==> s.joined == |s.workers|)
  }

  ghost predicate Inv(c: Config, s: State) {
    QueueInv(c, s) && PlaceInv(c, s) && OutcomeInv(c, s) && JoinInv(c, s)
  }

  lemma {:induction false} IdleHoldNothing(n: nat, id: nat)
    ensures Held(seq(n, _ => Idle), id) == 0 && ExitedCount(seq(n, _ => Idle)) == 0
  {
    if n > 0 {
      IdleHoldNothing(n - 1, id);
      var ws := seq(n, _ => Idle);
      assert ws[..n - 1] == seq(n - 1, _ => Idle);
    }
  }

  lemma {:induction false} InvInit(c: Config)
    ensures Inv(c, Init(c))
  {
    forall id: nat ensures PlacesOf(Init(c), id) == 0 {
      IdleHoldNothing(c.processors, id);
    }
    IdleHoldNothing(c.processors, 0);
  }

  lemma {:induction false} QueueStep(c: Config, s: State, step: Step)
    requires Inv(c, s) && Enabled(c, s, step)
    ensures QueueInv(c, Apply(c, s, step))
  {
  }

  ghost function Reported(s: State, step: Step, id: nat): nat
    requires step.Report? ==> step.w < |s.workers| && s.workers[step.w].Reporting?
  {
    if step.Report? && s.workers[step.w].r.id == id then 1 else 0
  }

  ghost function TakenBy(s: State, step: Step, id: nat): nat
    requires step.Get? ==> |s.input| > 0
  {
    if step.Get? && s.input[0] == Work(id) then 1 else 0
  }

  lemma {:induction false} HeldStep(c: Config, s: State, step: Step, id: nat)
    requires Enabled(c, s, step)
    ensures Held(Apply(c, s, step).workers, id) + Reported(s, step, id) == Held(s.workers, id) + TakenBy(s, step, id)
  {
    hide Held;
    var s' := Apply(c, s, step);
    match step
    case Get(w) => UpdateWorker(s.workers, w, s'.workers[w], id);
    case Check(w) => UpdateWorker(s.workers, w, s'.workers[w], id);
    case Finish(w, rc) => UpdateWorker(s.workers, w, s'.workers[w], id);
    case Report(w) => UpdateWorker(s.workers, w, Idle, id);
    case _ =>
  }

  lemma {:induction false} ResultsStep(c: Config, s: State, step: Step, id: nat)
    requires Enabled(c, s, step)
    ensures var s' := Apply(c, s, step);
            Results(s'.output, id) + Results(s'.log, id)
            == Results(s.output, id) + Results(s.log, id) + Reported(s, step, id)
  {
    hide Results;
    match step
    case Report(w) => PushResult(s.output, s.workers[w].r, id);
    case Collect =>
      PopResult(s.output, id);
      PushResult(s.log, s.output[0], id);
    case _ =>
  }

  // A step moves no job but the one it takes from the queue.
  lemma {:induction false} PlacesStep(c: Config, s: State, step: Step, id: nat)
    requires Enabled(c, s, step)
    ensures PlacesOf(Apply(c, s, step), id) == PlacesOf(s, id) + TakenBy(s, step, id)
  {
    HeldStep(c, s, step, id);
    ResultsStep(c, s, step, id);
    hide Held, Results, Reported, TakenBy, Enabled, Apply;
  }

  lemma {:induction false} ExitedStep(c: Config, s: State, step: Step)
    requires Enabled(c, s, step)
    ensures var s' := Apply(c, s, step);
            && |s'.workers| == |s.workers|
            && ExitedCount(s'.workers) == ExitedCount(s.workers) + if step.Get? && s.input[0].Break? then 1 else 0
  {
    var s' := Apply(c, s, step);
    match step
    case Get(w) => UpdateWorker(s.workers, w, s'.workers[w], 0);
    case Check(w) => UpdateWorker(s.workers, w, s'.workers[w], 0);
    case Finish(w, rc) => UpdateWorker(s.workers, w, s'.workers[w], 0);
    case Report(w) => UpdateWorker(s.workers, w, Idle, 0);
    case _ =>
  }

  lemma {:induction false} PlaceStep(c: Config, s: State, step: Step)
    requires QueueInv(c, s) && PlaceInv(c, s) && Enabled(c, s, step)
    ensures Taken(Apply(c, s, step)) >= 0 && PlaceInv(c, Apply(c, s, step))
  {
    hide PlacesOf, ExitedCount;
    var s' := Apply(c, s, step);
    if step.Get? {
      assert s.input[0] == Stream(c, Taken(s) + 0);
    }
    ExitedStep(c, s, step);
    forall id: nat ensures PlacesOf(s', id) == if id < JobsTaken(c, s') then 1 else 0 {
      PlacesStep(c, s, step, id);
    }
  }

  // What was honest stays so when the interrupt flag is set.
  lemma {:induction false} StaysHonest(c: Config, r: Result, w: Worker)
    ensures Honest(c, false, r) ==> Honest(c, true, r)
    ensures HonestWorker(c, false, w) ==> HonestWorker(c, true, w)
  {
  }

  lemma {:induction false} WorkerOutcome(c: Config, s: State, step: Step)
    requires Inv(c, s) && Enabled(c, s, step) && !step.Collect? && !step.Interrupt?
    ensures OutcomeInv(c, Apply(c, s, step))
  {
    if step.Get? {
      assert s.input[0] == Stream(c, Taken(s) + 0);
    }
    hide PlaceInv, JoinInv, TallyOf;
  }

  lemma {:induction false} OutcomeStep(c: Config, s: State, step: Step)
    requires Inv(c, s) && Enabled(c, s, step)
    ensures OutcomeInv(c, Apply(c, s, step))
  {
    if step.Collect? {
      assert Apply(c, s, step).log[..|s.log|] == s.log;
    } else if step.Interrupt? {
      forall r, w { StaysHonest(c, r, w); }
    } else {
      WorkerOutcome(c, s, step);
    }
    hide PlaceInv, JoinInv, QueueInv, HonestWorker, Honest;
  }

  lemma {:induction false} JoinStep(c: Config, s: State, step: Step)
    requires JoinInv(c, s) && Enabled(c, s, step)
    ensures JoinInv(c, Apply(c, s, step))
  {
  }

  /** Every step of every thread keeps the invariant. */
  lemma {:induction false} InvStep(c: Config, s: State, step: Step)
    requires Inv(c, s) && Enabled(c, s, step)
    ensures Inv(c, Apply(c, s, step))
  {
    QueueStep(c, s, step);
    PlaceStep(c, s, step);
    OutcomeStep(c, s, step);
    JoinStep(c, s, step);
    hide *;
  }

  // ----- every run ends -----

  ghost function WorkLeft(w: Worker): nat {
    match w
    case Got(_) => 4
    case Launched(_) => 3
    case Reporting(_) => 2
    case _ => 0
  }

  ghost function AllWorkLeft(ws: seq<Worker>): nat {
    if |ws| == 0 then 0 else AllWorkLeft(ws[..|ws| - 1]) + WorkLeft(ws[|ws| - 1])
  }

  lemma {:induction false} UpdateWorkLeft(ws: seq<Worker>, w: nat, x: Worker)
    requires w < |ws|
    ensures AllWorkLeft(ws[w := x]) + WorkLeft(ws[w]) == AllWorkLeft(ws) + WorkLeft(x)
  {
    var vs := ws[w := x];
    if w < |ws| - 1 {
      UpdateWorkLeft(ws[..|ws| - 1], w, x);
      assert vs[..|ws| - 1] == ws[..|ws| - 1][w := x];
    } else {
      assert vs[..|ws| - 1] == ws[..|ws| - 1];
    }
  }

  ghost function Variant(c: Config, s: State): int {
    6 * (Total(c) - s.put) + 5 * |s.input| + AllWorkLeft(s.workers) + |s.output|
    + (|s.workers| - s.joined) + (if s.done then 0 else 1) + (if s.threadExit then 0 else 1)
  }

  lemma {:induction false} StepDescends(c: Config, s: State, step: Step)
    requires Inv(c, s) && Enabled(c, s, step)
    ensures 0 <= Variant(c, Apply(c, s, step)) < Variant(c, s)
  {
    hide AllWorkLeft, PlaceInv, OutcomeInv;
    var s' := Apply(c, s, step);
    match step
    case Get(w) => UpdateWorkLeft(s.workers, w, s'.workers[w]);
    case Check(w) => UpdateWorkLeft(s.workers, w, s'.workers[w]);
    case Finish(w, rc) => UpdateWorkLeft(s.workers, w, s'.workers[w]);
    case Report(w) => UpdateWorkLeft(s.workers, w, Idle);
    case _ =>
  }

  // A run: any interleaving, with the interrupt at any moment.
  ghost predicate Run(c: Config, ss: seq<State>, steps: seq<Step>) {
    && |ss| == |steps| + 1 && ss[0] == Init(c)
    && forall k :: 0 <= k < |steps| ==> Enabled(c, ss[k], steps[k]) && ss[k + 1] == Apply(c, ss[k], steps[k])
  }

  /** All states of a run satisfy the invariant, and the run is no longer than 6 jobs + 7 processors + 2 steps. */
  lemma {:induction false} RunKeepsInvariant(c: Config, ss: seq<State>, steps: seq<Step>)
    requires Run(c, ss, steps)
    ensures Inv(c, ss[|steps|]) && Variant(c, ss[|steps|]) >= 0
    ensures |steps| + Variant(c, ss[|steps|]) <= 6 * |c.jobs| + 7 * c.processors + 2
  {
    var n := |steps|;
    if n == 0 {
      InvInit(c);
      IdleWorkLeft(c.processors);
    } else {
      RunKeepsInvariant(c, ss[..n], steps[..n - 1]);
      var k := n - 1;
      assert ss[k + 1] == Apply(c, ss[k], steps[k]);
      InvStep(c, ss[k], steps[k]);
      StepDescends(c, ss[k], steps[k]);
    }
  }

  lemma {:induction false} IdleWorkLeft(n: nat)
    ensures AllWorkLeft(seq(n, _ => Idle)) == 0
  {
    if n > 0 {
      IdleWorkLeft(n - 1);
      var ws := seq(n, _ => Idle);
      assert ws[..n - 1] == seq(n - 1, _ => Idle);
    }
  }

  // ----- no state deadlocks -----

  ghost predicate Busy(w: Worker) {
    w.Got? || w.Launched? || w.Reporting?
  }

  lemma {:induction false} BusyMoves(c: Config, s: State, w: nat) returns (step: Step)
    requires Inv(c, s) && w < |s.workers| && Busy(s.workers[w])
    ensures Enabled(c, s, step) && !step.Interrupt?
  {
    assert HonestWorker(c, s.threadExit, s.workers[w]);
    match s.workers[w]
    case Got(_) => step := Check(w);
    case Launched(_) => step := Finish(w, 0);
    case Reporting(_) => step := Report(w);
    case _ =>
  }

  // While main waits for a result that is not there yet, some worker can move.
  lemma {:induction false} WaitingForResult(c: Config, s: State) returns (step: Step)
    requires Inv(c, s) && c.processors > 0 && s.put == Total(c) && |s.log| < |c.jobs| && |s.output| == 0
    ensures Enabled(c, s, step) && !step.Interrupt?
  {
    if w :| 0 <= w < |s.workers| && Busy(s.workers[w]) {
      step := BusyMoves(c, s, w);
    } else if Taken(s) < |c.jobs| {
      CountExited(s.workers);
      step := Get(0);
    } else {
      forall id: nat | id < |c.jobs| ensures Results(s.log, id) >= 1 {
        assert PlacesOf(s, id) == 1;
        if Held(s.workers, id) > 0 {
          var w := Holder(s.workers, id);
        }
      }
      EnoughResults(s.log, |c.jobs|);
      ResultsBelowBound(s.log, |c.jobs|);
      assert false;
    }
  }

  // While main joins a worker that has not exited yet, that worker can move.
  lemma {:induction false} WaitingForExit(c: Config, s: State) returns (step: Step)
    requires Inv(c, s) && s.put == Total(c) && |s.log| == |c.jobs| && s.joined < |s.workers|
    requires !s.workers[s.joined].Exited?
    ensures Enabled(c, s, step) && !step.Interrupt?
  {
    if Busy(s.workers[s.joined]) {
      step := BusyMoves(c, s, s.joined);
    } else {
      CountExited(s.workers);
      step := Get(s.joined);
    }
  }

  /** With at least one worker (or nothing to run), some thread can move until run_tests returns. */
  lemma {:induction false} NoDeadlock(c: Config, s: State) returns (step: Step)
    requires Inv(c, s) && !s.done && (c.processors > 0 || |c.jobs| == 0)
    ensures Enabled(c, s, step) && !step.Interrupt?
  {
    ResultsBelowBound(s.log, |c.jobs|);
    if s.put < Total(c) {
      step := Put;
    } else if |s.log| < |c.jobs| {
      if |s.output| > 0 {
        step := Collect;
      } else {
        step := WaitingForResult(c, s);
      }
    } else {
      LogBounded(c, s);
      if s.joined == |s.workers| {
        step := Return;
      } else if s.workers[s.joined].Exited? {
        step := Join;
      } else {
        step := WaitingForExit(c, s);
      }
    }
  }

  // No job has two results, so main never has more results than jobs.
  lemma {:induction false} LogBounded(c: Config, s: State)
    requires Inv(c, s)
    ensures |s.log| <= |c.jobs|
  {
    forall id: nat | id < |c.jobs| ensures Results(s.log, id) <= 1 {
      assert PlacesOf(s, id) <= 1;
    }
    FewResults(s.log, |c.jobs|);
    AllBelow(c, s.threadExit, s.log);
  }

  lemma {:induction false} FewResults(rs: seq<Result>, k: nat)
    requires forall id: nat :: id < k ==> Results(rs, id) <= 1
    ensures ResultsBelow(rs, k) <= k
  {
    if k > 0 {
      FewResults(rs, k - 1);
    }
  }

  lemma {:induction false} AllBelow(c: Config, exit: bool, rs: seq<Result>)
    requires forall k :: 0 <= k < |rs| ==> Honest(c, exit, rs[k])
    ensures ResultsBelow(rs, |c.jobs|) == |rs|
  {
    if |rs| == 0 {
      NoResults(|c.jobs|);
    } else {
      AllBelow(c, exit, rs[..|rs| - 1]);
      ResultsBelowStep(rs, |c.jobs|);
    }
  }

  // ----- without workers -----

  function AfterPuts(c: Config, k: nat): State {
    State(k, seq(k, (i: nat) => Work(i)), [], [], false, [], Tally(0, 0, 0, 0, 0), 0, false)
  }

  /** If no worker is spawned while there are jobs, main blocks on the output queue for ever. */
  lemma {:induction false} NoWorkersBlocks(c: Config, k: nat)
    requires c.processors == 0 && |c.jobs| > 0 && k < |c.jobs|
    ensures AfterPuts(c, 0) == Init(c)
    ensures Enabled(c, AfterPuts(c, k), Put) && Apply(c, AfterPuts(c, k), Put) == AfterPuts(c, k + 1)
    ensures forall step :: Enabled(c, AfterPuts(c, |c.jobs|), step) ==> step.Interrupt?
  {
    assert AfterPuts(c, k).input + [Work(k)] == AfterPuts(c, k + 1).input;
    assert AfterPuts(c, 0).input == [];
  }

  // ----- what the results say -----

  /** A break is only taken when every job has been taken. */
  lemma {:induction false} NoEarlyBreak(c: Config, s: State, w: nat)
    requires Inv(c, s) && Enabled(c, s, Get(w)) && s.input[0].Break?
    ensures forall k :: 0 <= k < |s.input| ==> s.input[k].Break?
    ensures forall id: nat :: id < |c.jobs| ==> PlacesOf(s, id) == 1
  {
  }

  ghost function InterruptedIn(log: seq<Result>): nat {
    if |log| == 0 then 0
    else InterruptedIn(log[..|log| - 1]) + if log[|log| - 1].outcome.Interrupted? then 1 else 0
  }

  ghost predicate Good(o: Outcome) {
    o == Skipped || o == Code(0)
  }

  lemma {:induction false} TallySums(log: seq<Result>)
    ensures var t := TallyOf(log);
            && t.passed + t.failed + t.valgrind + t.crashed + t.skipped + InterruptedIn(log) == |log|
            && t.passed + t.skipped <= |log|
            && (t.passed + t.skipped == |log| <==> forall k :: 0 <= k < |log| ==> Good(log[k].outcome))
  {
    if |log| > 0 {
      TallySums(log[..|log| - 1]);
    }
  }

  /** When run_tests returns: one result per job, one break per worker, and the counters account for every job. */
  lemma {:induction false} Accounting(c: Config, s: State)
    requires Inv(c, s) && s.done
    ensures forall id: nat :: id < |c.jobs| ==> Results(s.log, id) == 1
    ensures |s.log| == |c.jobs| && |s.input| == 0
    ensures Taken(s) == |c.jobs| + c.processors && forall w :: 0 <= w < |s.workers| ==> s.workers[w].Exited?
    ensures var t := s.tally;
            t.passed + t.failed + t.valgrind + t.crashed + t.skipped + InterruptedIn(s.log) == |c.jobs|
    ensures !s.threadExit ==> InterruptedIn(s.log) == 0
    ensures ExitCode(c, s) == 0 <==>
              forall k :: 0 <= k < |s.log| ==> s.log[k].outcome == Skipped || s.log[k].outcome == Code(0)
  {
    CountExited(s.workers);
    TallySums(s.log);
    NoInterrupts(c, s.log);
    if JobsTaken(c, s) < |c.jobs| {
      assert PlacesOf(s, JobsTaken(c, s)) == 0;
      MissingResult(c, s, JobsTaken(c, s));
    }
    forall id: nat | id < |c.jobs| ensures Results(s.log, id) == 1 {
      assert PlacesOf(s, id) == 1;
      MissingResult(c, s, id);
    }
  }

  lemma {:induction false} NoInterrupts(c: Config, log: seq<Result>)
    requires forall k :: 0 <= k < |log| ==> Honest(c, true, log[k])
    ensures (forall k :: 0 <= k < |log| ==> Honest(c, false, log[k])) ==> InterruptedIn(log) == 0
  {
    if |log| > 0 {
      NoInterrupts(c, log[..|log| - 1]);
    }
  }

  // When main has as many results as there are jobs, no job is without one.
  lemma {:induction false} MissingResult(c: Config, s: State, id: nat)
    requires Inv(c, s) && |s.log| == |c.jobs| && id < |c.jobs|
    ensures Results(s.log, id) > 0
  {
    if Results(s.log, id) == 0 {
      forall j: nat | j < |c.jobs| ensures Results(s.log, j) <= 1 {
        assert PlacesOf(s, j) <= 1;
      }
      OneMissing(s.log, |c.jobs|, id);
      AllBelow(c, s.threadExit, s.log);
    }
  }

  lemma {:induction false} OneMissing(rs: seq<Result>, k: nat, id: nat)
    requires (forall j: nat :: j < k ==> Results(rs, j) <= 1) && id < k && Results(rs, id) == 0
    ensures ResultsBelow(rs, k) < k
  {
    if id < k - 1 {
      OneMissing(rs, k - 1, id);
    } else {
      FewResults(rs, k - 1);
    }
  }

  // ----- what becomes of a job -----

  lemma {:induction false} HeldAtLeast(ws: seq<Worker>, w: nat, id: nat)
    requires w < |ws|
    ensures HoldsJob(ws[w], id) <= Held(ws, id)
  {
    if w < |ws| - 1 {
      HeldAtLeast(ws[..|ws| - 1], w, id);
    }
  }

  lemma {:induction false} ResultsAtLeast(rs: seq<Result>, k: nat, id: nat)
    requires k < |rs| && rs[k].id == id
    ensures Results(rs, id) >= 1
  {
    if k < |rs| - 1 {
      ResultsAtLeast(rs[..|rs| - 1], k, id);
    }
  }

  // Nobody works on the job and no result is about it.
  ghost predicate Nowhere(ws: seq<Worker>, output: seq<Result>, log: seq<Result>, id: nat) {
    && (forall w :: 0 <= w < |ws| ==> HoldsJob(ws[w], id) == 0)
    && (forall k :: 0 <= k < |output| ==> output[k].id != id)
    && (forall k :: 0 <= k < |log| ==> log[k].id != id)
  }

  lemma {:induction false} NowhereIfZero(ws: seq<Worker>, output: seq<Result>, log: seq<Result>, id: nat)
    requires Held(ws, id) + Results(output, id) + Results(log, id) == 0
    ensures Nowhere(ws, output, log, id)
  {
    forall w | 0 <= w < |ws| ensures HoldsJob(ws[w], id) == 0 {
      HeldAtLeast(ws, w, id);
    }
    forall k | 0 <= k < |output| ensures output[k].id != id {
      if output[k].id == id {
        ResultsAtLeast(output, k, id);
      }
    }
    forall k | 0 <= k < |log| ensures log[k].id != id {
      if log[k].id == id {
        ResultsAtLeast(log, k, id);
      }
    }
  }

  // The job that worker w holds is nowhere else, and has been taken from the queue.
  lemma {:induction false} OnlyHere(c: Config, s: State, w: nat, id: nat)
    requires Inv(c, s) && w < |s.workers| && HoldsJob(s.workers[w], id) == 1
    ensures Nowhere(s.workers[w := Idle], s.output, s.log, id) && id < Taken(s)
  {
    HeldAtLeast(s.workers, w, id);
    assert PlacesOf(s, id) == if id < JobsTaken(c, s) then 1 else 0;
    UpdateWorker(s.workers, w, Idle, id);
    NowhereIfZero(s.workers[w := Idle], s.output, s.log, id);
  }

  // Not dispatched yet, in the input queue, or with a worker that has not looked at thread_exit.
  ghost predicate Unchecked(s: State, id: nat) {
    id >= s.put || Work(id) in s.input || exists w :: 0 <= w < |s.workers| && s.workers[w] == Got(id)
  }

  // Nobody runs the job, and all results about it are interruptions.
  ghost predicate Interrupting(s: State, id: nat) {
    && s.threadExit
    && (forall w :: 0 <= w < |s.workers| ==> s.workers[w] != Launched(id))
    && (forall w :: 0 <= w < |s.workers| && s.workers[w].Reporting? && s.workers[w].r.id == id ==>
          s.workers[w].r.outcome == Interrupted)
    && (forall k :: 0 <= k < |s.output| && s.output[k].id == id ==> s.output[k].outcome == Interrupted)
    && (forall k :: 0 <= k < |s.log| && s.log[k].id == id ==> s.log[k].outcome == Interrupted)
  }

  lemma {:induction false} InterruptingStarts(c: Config, s: State, id: nat)
    requires Inv(c, s) && id < |c.jobs| && Unchecked(s, id) && Enabled(c, s, Interrupt)
    ensures Interrupting(Apply(c, s, Interrupt), id)
  {
    if w :| 0 <= w < |s.workers| && s.workers[w] == Got(id) {
      OnlyHere(c, s, w, id);
      forall v | 0 <= v < |s.workers| ensures v == w || HoldsJob(s.workers[v], id) == 0 {
        assert v != w ==> s.workers[w := Idle][v] == s.workers[v];
      }
    } else {
      if k :| 0 <= k < |s.input| && s.input[k] == Work(id) {
        assert s.input[k] == Stream(c, Taken(s) + k);
      }
      assert PlacesOf(s, id) == 0;
      NowhereIfZero(s.workers, s.output, s.log, id);
    }
  }

  lemma {:induction false} InterruptingStep(c: Config, s: State, step: Step, id: nat)
    requires Interrupting(s, id) && Enabled(c, s, step)
    ensures Interrupting(Apply(c, s, step), id)
  {
  }

  lemma {:induction false} InterruptingRun(c: Config, ss: seq<State>, steps: seq<Step>, k: nat, m: nat, id: nat)
    requires Run(c, ss, steps) && k < m <= |steps| && steps[k] == Interrupt
    requires id < |c.jobs| && Unchecked(ss[k], id)
    ensures Interrupting(ss[m], id)
    decreases m
  {
    assert ss[m] == Apply(c, ss[m - 1], steps[m - 1]) && Enabled(c, ss[m - 1], steps[m - 1]);
    if m == k + 1 {
      RunUpTo(c, ss, steps, k);
      InterruptingStarts(c, ss[k], id);
    } else {
      InterruptingRun(c, ss, steps, k, m - 1, id);
      InterruptingStep(c, ss[m - 1], steps[m - 1], id);
    }
  }

  lemma {:induction false} RunUpTo(c: Config, ss: seq<State>, steps: seq<Step>, k: nat)
    requires Run(c, ss, steps) && k <= |steps|
    ensures Run(c, ss[..k + 1], steps[..k]) && Inv(c, ss[k])
  {
    RunKeepsInvariant(c, ss[..k + 1], steps[..k]);
    hide Inv;
  }

  /** The interrupt takes effect: every job not yet looked at when it comes, be it undispatched, queued or just taken,
      is reported as interrupted and nothing else, and run_tests returns 1. */
  lemma {:induction false} InterruptTakesEffect(c: Config, ss: seq<State>, steps: seq<Step>, k: nat, id: nat)
    requires Run(c, ss, steps) && k < |steps| && steps[k] == Interrupt
    requires id < |c.jobs| && Unchecked(ss[k], id) && ss[|steps|].done
    ensures var log := ss[|steps|].log;
            && (exists j :: 0 <= j < |log| && log[j] == Result(id, Interrupted))
            && forall j :: 0 <= j < |log| && log[j].id == id ==> log[j].outcome == Interrupted
    ensures ExitCode(c, ss[|steps|]) == 1
  {
    var s := ss[|steps|];
    RunUpTo(c, ss, steps, |steps|);
    InterruptingRun(c, ss, steps, k, |steps|, id);
    Accounting(c, s);
    var j := SomeResult(s.log, id);
    hide Inv;
    assert s.log[j] == Result(id, Interrupted) && !Good(s.log[j].outcome);
  }

  lemma {:induction false} SomeResult(rs: seq<Result>, id: nat) returns (k: nat)
    requires Results(rs, id) > 0
    ensures k < |rs| && rs[k].id == id
  {
    k := |rs| - 1;
    if rs[k].id != id {
      k := SomeResult(rs[..k], id);
    }
  }

  lemma {:induction false} ExitStays(c: Config, ss: seq<State>, steps: seq<Step>, k: nat, m: nat)
    requires Run(c, ss, steps) && k < m <= |steps| && steps[k] == Interrupt
    ensures ss[m].threadExit
    decreases m
  {
    assert ss[m] == Apply(c, ss[m - 1], steps[m - 1]) && Enabled(c, ss[m - 1], steps[m - 1]);
    if m > k + 1 {
      ExitStays(c, ss, steps, k, m - 1);
    }
  }

  /** main takes results in the order in which they were put. */
  lemma {:induction false} ResultsInOrder(c: Config, ss: seq<State>, steps: seq<Step>, k: nat, m: nat)
    requires Run(c, ss, steps) && k <= m <= |steps|
    ensures ss[k].log + ss[k].output <= ss[m].log + ss[m].output
    decreases m
  {
    hide Apply, Enabled;
    if k < m {
      ResultsInOrder(c, ss, steps, k, m - 1);
      assert Enabled(c, ss[m - 1], steps[m - 1]) && ss[m - 1 + 1] == Apply(c, ss[m - 1], steps[m - 1]);
      var more := OutputStep(c, ss[m - 1], steps[m - 1]);
      LongerStill(ss[k].log + ss[k].output, ss[m - 1].log + ss[m - 1].output, more);
    }
  }

  lemma {:induction false} LongerStill<T>(a: seq<T>, b: seq<T>, c: seq<T>)
    requires a <= b
    ensures a <= b + c
  {
  }

  lemma {:induction false} OutputStep(c: Config, s: State, step: Step) returns (more: seq<Result>)
    requires Enabled(c, s, step)
    ensures var t := Apply(c, s, step);
            t.log + t.output == s.log + s.output + more
  {
    more := if step.Report? then [s.workers[step.w].r] else [];
    if step.Collect? {
      assert s.output == [s.output[0]] + s.output[1..];
    }
  }

  /** After the interrupt no worker launches a job. */
  lemma {:induction false} NoLaunchAfter(c: Config, ss: seq<State>, steps: seq<Step>, k: nat, m: nat, w: nat)
    requires Run(c, ss, steps) && k < m < |steps| && steps[k] == Interrupt
    requires w < |ss[m + 1].workers| && ss[m + 1].workers[w].Launched?
    ensures w < |ss[m].workers| && ss[m].workers[w] == ss[m + 1].workers[w]
  {
    ExitStays(c, ss, steps, k, m);
    assert ss[m + 1] == Apply(c, ss[m], steps[m]) && Enabled(c, ss[m], steps[m]);
  }

  // The outcome of the job is o: it is past the queue, with nobody before reporting, and all results about it say o.
  ghost predicate Settled(s: State, id: nat, o: Outcome) {
    && id < Taken(s)
    && (forall w :: 0 <= w < |s.workers| ==> s.workers[w] != Got(id) && s.workers[w] != Launched(id))
    && (forall w :: 0 <= w < |s.workers| && s.workers[w].Reporting? && s.workers[w].r.id == id ==>
          s.workers[w].r.outcome == o)
    && (forall k :: 0 <= k < |s.output| && s.output[k].id == id ==> s.output[k].outcome == o)
    && (forall k :: 0 <= k < |s.log| && s.log[k].id == id ==> s.log[k].outcome == o)
  }

  lemma {:induction false} SettledStep(c: Config, s: State, step: Step, id: nat, o: Outcome)
    requires QueueInv(c, s) && Settled(s, id, o) && Enabled(c, s, step)
    ensures Settled(Apply(c, s, step), id, o)
  {
    if step.Get? {
      assert s.input[0] == Stream(c, Taken(s) + 0);
    } else if step.Report? || step.Collect? {
      SettledMoves(c, s, step, id, o);
    }
    hide QueueInv;
  }

  lemma {:induction false} SettledMoves(c: Config, s: State, step: Step, id: nat, o: Outcome)
    requires Settled(s, id, o) && Enabled(c, s, step) && (step.Report? || step.Collect?)
    ensures Settled(Apply(c, s, step), id, o)
  {
  }

  lemma {:induction false} SettledStarts(c: Config, s: State, step: Step, w: nat, id: nat, o: Outcome)
    requires Inv(c, s) && Enabled(c, s, step) && w < |s.workers| && HoldsJob(s.workers[w], id) == 1
    requires step == Check(w) || (step.Finish? && step.w == w)
    requires Apply(c, s, step).workers[w] == Reporting(Result(id, o))
    ensures Settled(Apply(c, s, step), id, o)
  {
    OnlyHere(c, s, w, id);
    forall v | 0 <= v < |s.workers| ensures v == w || HoldsJob(s.workers[v], id) == 0 {
      assert v != w ==> s.workers[w := Idle][v] == s.workers[v];
    }
    hide Inv;
  }

  lemma {:induction false} SettledRun(c: Config, ss: seq<State>, steps: seq<Step>, k: nat, m: nat, id: nat, o: Outcome)
    requires Run(c, ss, steps) && k <= m <= |steps| && Settled(ss[k], id, o)
    ensures Settled(ss[m], id, o)
    decreases m
  {
    hide Apply, Enabled, Settled, QueueInv, PlaceInv, OutcomeInv, JoinInv;
    if k < m {
      assert Enabled(c, ss[m - 1], steps[m - 1]) && ss[m - 1 + 1] == Apply(c, ss[m - 1], steps[m - 1]);
      SettledRun(c, ss, steps, k, m - 1, id, o);
      RunUpTo(c, ss, steps, m - 1);
      SettledStep(c, ss[m - 1], steps[m - 1], id, o);
    }
  }

  ghost predicate InterruptedBefore(steps: seq<Step>, k: nat) {
    exists j :: 0 <= j < k && j < |steps| && steps[j] == Interrupt
  }

  lemma {:induction false} ExitIff(c: Config, ss: seq<State>, steps: seq<Step>, k: nat)
    requires Run(c, ss, steps) && k <= |steps|
    ensures ss[k].threadExit <==> InterruptedBefore(steps, k)
  {
    if k > 0 {
      ExitIff(c, ss, steps, k - 1);
      assert ss[k] == Apply(c, ss[k - 1], steps[k - 1]) && Enabled(c, ss[k - 1], steps[k - 1]);
      if InterruptedBefore(steps, k - 1) {
        var j :| 0 <= j < k - 1 && j < |steps| && steps[j] == Interrupt;
      }
    }
  }

  /** What main sees of a job is what its worker met: an interruption if the interrupt came before the worker looked,
      else a skip if the job is to be skipped; else the worker launches the job ... */
  lemma {:induction false} CheckDecides(c: Config, ss: seq<State>, steps: seq<Step>, k: nat, w: nat, id: nat)
    requires Run(c, ss, steps) && k < |steps| && steps[k] == Check(w)
    requires w < |ss[k].workers| && ss[k].workers[w] == Got(id) && id < |c.jobs|
    ensures var log := ss[|steps|].log;
            if InterruptedBefore(steps, k) then forall j :: 0 <= j < |log| && log[j].id == id ==>
                                                     log[j].outcome == Interrupted
            else if c.jobs[id].isSkip then forall j :: 0 <= j < |log| && log[j].id == id ==> log[j].outcome == Skipped
            else w < |ss[k + 1].workers| && ss[k + 1].workers[w] == Launched(id)
  {
    var o := if InterruptedBefore(steps, k) then Interrupted else Skipped;
    ExitIff(c, ss, steps, k);
    RunUpTo(c, ss, steps, k);
    assert ss[k + 1] == Apply(c, ss[k], steps[k]) && Enabled(c, ss[k], steps[k]);
    if InterruptedBefore(steps, k) || c.jobs[id].isSkip {
      SettledStarts(c, ss[k], steps[k], w, id, o);
      SettledRun(c, ss, steps, k + 1, |steps|, id, o);
    }
    hide Inv, Run;
  }

  /** ... and otherwise the return code it finished with. */
  lemma {:induction false} FinishDecides(c: Config, ss: seq<State>, steps: seq<Step>, k: nat, w: nat, rc: int, id: nat,
                                         j: nat)
    requires Run(c, ss, steps) && k < |steps| && steps[k] == Finish(w, rc)
    requires w < |ss[k].workers| && ss[k].workers[w] == Launched(id)
    requires j < |ss[|steps|].log| && ss[|steps|].log[j].id == id
    ensures ss[|steps|].log[j].outcome == Code(rc)
  {
    RunUpTo(c, ss, steps, k);
    assert ss[k + 1] == Apply(c, ss[k], steps[k]) && Enabled(c, ss[k], steps[k]);
    SettledStarts(c, ss[k], steps[k], w, id, Code(rc));
    SettledRun(c, ss, steps, k + 1, |steps|, id, Code(rc));
    hide Inv, Run;
  }

  // ----- which counter -----

  // How many of the results have the outcome, and how many a return code other than 0, 1 and 2.
  ghost function Having(log: seq<Result>, o: Outcome): nat {
    |set k | 0 <= k < |log| && log[k].outcome == o|
  }

  ghost function Crashes(log: seq<Result>): nat {
    |set k | 0 <= k < |log| && log[k].outcome.Code? && log[k].outcome.returncode !in [0, 1, 2]|
  }

  lemma {:induction false} OneMoreHaving(log: seq<Result>, o: Outcome)
    requires |log| > 0
    ensures Having(log, o) == Having(log[..|log| - 1], o) + if log[|log| - 1].outcome == o then 1 else 0
  {
    var q, n := log[..|log| - 1], |log| - 1;
    var a := set k | 0 <= k < |q| && q[k].outcome == o;
    var b := set k | 0 <= k < |log| && log[k].outcome == o;
    assert forall i :: 0 <= i < n ==> q[i] == log[i];
    OneMoreIn(a, b, n, log[n].outcome == o);
  }

  lemma {:induction false} OneMoreCrash(log: seq<Result>)
    requires |log| > 0
    ensures var o := log[|log| - 1].outcome;
            Crashes(log) == Crashes(log[..|log| - 1]) + if o.Code? && o.returncode !in [0, 1, 2] then 1 else 0
  {
    var q, n := log[..|log| - 1], |log| - 1;
    var a := set k | 0 <= k < |q| && q[k].outcome.Code? && q[k].outcome.returncode !in [0, 1, 2];
    var b := set k | 0 <= k < |log| && log[k].outcome.Code? && log[k].outcome.returncode !in [0, 1, 2];
    assert forall i :: 0 <= i < n ==> q[i] == log[i];
    OneMoreIn(a, b, n, log[n].outcome.Code? && log[n].outcome.returncode !in [0, 1, 2]);
  }

  /** Results counts the results about a job, InterruptedIn the interruptions. */
  lemma {:induction false} ResultsAre(rs: seq<Result>, id: nat)
    ensures Results(rs, id) == |set k | 0 <= k < |rs| && rs[k].id == id|
    ensures InterruptedIn(rs) == Having(rs, Interrupted)
  {
    if |rs| > 0 {
      var q, n := rs[..|rs| - 1], |rs| - 1;
      ResultsAre(q, id);
      var a := set k | 0 <= k < |q| && q[k].id == id;
      var b := set k | 0 <= k < |rs| && rs[k].id == id;
      assert forall i :: 0 <= i < n ==> q[i] == rs[i];
      OneMoreIn(a, b, n, rs[n].id == id);
      OneMoreHaving(rs, Interrupted);
      hide Having;
    } else {
      assert Having(rs, Interrupted) == 0;
    }
  }

  /** Return code 0 counts as passed, 1 as failed, 2 as a valgrind error, any other as crashed. */
  lemma {:induction false} TallyMeans(log: seq<Result>)
    ensures TallyOf(log) == Tally(Having(log, Code(0)), Having(log, Code(1)), Having(log, Code(2)), Crashes(log),
                                  Having(log, Skipped))
  {
    if |log| == 0 {
      assert Having(log, Code(0)) == Having(log, Code(1)) == Having(log, Code(2)) == Having(log, Skipped) == 0;
    } else {
      TallyMeans(log[..|log| - 1]);
      OneMoreHaving(log, Code(0));
      OneMoreHaving(log, Code(1));
      OneMoreHaving(log, Code(2));
      OneMoreHaving(log, Skipped);
      OneMoreCrash(log);
      hide Having, Crashes;
    }
  }
}
