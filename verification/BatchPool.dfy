/**
 Run of internal/pkg/batch/batch.go as a step system: one main goroutine, one
 wrapper goroutine per job, a limiter channel and a wait group.
 */
module BatchPool {

  import opened Sums

  // ----- States and steps ----------------------------------------------------

  /** A wrapper: before its start, in the job, past it, past the receive, past wg.Done. */
  datatype Phase = Waiting | Running | Ran | Released | Finished

  /** Where the main goroutine stands in Run. */
  datatype Main = Sending(i: nat) | Adding(i: nat) | Spawning(i: nat) | Closing | Returned

  datatype State = State(main: Main, tokens: nat, wg: nat, phases: seq<Phase>, starts: seq<nat>, closed: bool)

  datatype Step = Send | Add | Spawn | Join | Close | JobReturns(j: nat) | Receive(j: nat) | WgDone(j: nat)

  function Init(jobs: nat): State {
    State(Sending(0), 0, 0, seq(jobs, _ => Waiting), seq(jobs, _ => 0), false)
  }

  predicate Enabled(active: nat, s: State, step: Step) {
    match step
    case Send => s.main.Sending? && s.main.i < |s.phases| && s.tokens < active
    case Add => s.main.Adding?
    case Spawn => s.main.Spawning? && s.main.i < |s.phases| == |s.starts|
    case Join => s.main.Sending? && s.main.i == |s.phases| && s.wg == 0
    case Close => s.main.Closing?
    case JobReturns(j) => j < |s.phases| && s.phases[j] == Running
    case Receive(j) => j < |s.phases| && s.phases[j] == Ran && (s.tokens > 0 || s.closed)
    case WgDone(j) => j < |s.phases| && s.phases[j] == Released && s.wg > 0
  }

  function Do(s: State, step: Step, active: nat): State
    requires Enabled(active, s, step)
  {
    match step
    case Send => s.(main := Adding(s.main.i), tokens := s.tokens + 1)
    case Add => s.(main := Spawning(s.main.i), wg := s.wg + 1)
    case Spawn =>
      var i := s.main.i;
      s.(main := Sending(i + 1), phases := s.phases[i := Running], starts := s.starts[i := s.starts[i] + 1])
    case Join => s.(main := Closing)
    case Close => s.(main := Returned, closed := true)
    case JobReturns(j) => s.(phases := s.phases[j := Ran])
    case Receive(j) => s.(phases := s.phases[j := Released], tokens := if s.tokens > 0 then s.tokens - 1 else 0)
    case WgDone(j) => s.(phases := s.phases[j := Finished], wg := s.wg - 1)
  }

  /** Jobs that hold a limiter token. */
  function Holds(p: Phase): nat { if p == Running || p == Ran then 1 else 0 }

  /** Jobs the wait group still counts. */
  function Counts(p: Phase): nat { if p == Running || p == Ran || p == Released then 1 else 0 }

  function Started(s: State): nat {
    match s.main
    case Sending(i) => i
    case Adding(i) => i
    case Spawning(i) => i
    case _ => |s.phases|
  }

  ghost predicate Inv(active: nat, s: State) {
    && |s.starts| == |s.phases| && Started(s) <= |s.phases|
    && (s.main.Adding? || s.main.Spawning? ==> s.main.i < |s.phases|)
    && s.tokens == Sum(Holds, s.phases) + (if s.main.Adding? || s.main.Spawning? then 1 else 0)
    && s.tokens <= active
    && s.wg == Sum(Counts, s.phases) + (if s.main.Spawning? then 1 else 0)
    && (forall j :: 0 <= j < |s.phases| ==> (s.phases[j] == Waiting <==> j >= Started(s)))
    && (forall j :: 0 <= j < |s.phases| ==> s.starts[j] == if s.phases[j] == Waiting then 0 else 1)
    && (s.main.Closing? || s.main.Returned? ==> s.wg == 0)
    && (s.closed <==> s.main.Returned?)
  }

  lemma InitInv(active: nat, jobs: nat)
    ensures Inv(active, Init(jobs))
  {
    SumZero(Holds, Init(jobs).phases);
    SumZero(Counts, Init(jobs).phases);
  }

  lemma MainStepInv(active: nat, s: State, step: Step)
    requires Inv(active, s) && Enabled(active, s, step) && !step.JobReturns? && !step.Receive? && !step.WgDone?
    ensures Inv(active, Do(s, step, active))
  {
    if step.Spawn? {
      SumUpdate(Holds, s.phases, s.main.i, Running);
      SumUpdate(Counts, s.phases, s.main.i, Running);
    }
    hide Sum;
  }

  lemma WorkerStepInv(active: nat, s: State, j: nat, p: Phase, tokens: nat, wg: nat)
    requires Inv(active, s) && j < |s.phases| && s.phases[j] != Waiting && p != Waiting
    requires tokens + Holds(s.phases[j]) == s.tokens + Holds(p) && tokens <= s.tokens
    requires wg + Counts(s.phases[j]) == s.wg + Counts(p) && wg <= s.wg
    ensures Inv(active, s.(phases := s.phases[j := p], tokens := tokens, wg := wg))
  {
    SumUpdate(Holds, s.phases, j, p);
    SumUpdate(Counts, s.phases, j, p);
    hide Sum;
  }

  lemma StepInv(active: nat, s: State, step: Step)
    requires Inv(active, s) && Enabled(active, s, step)
    ensures Inv(active, Do(s, step, active)) && |Do(s, step, active).phases| == |s.phases|
  {
    hide Inv, Sum;
    match step
    case JobReturns(j) => WorkerStepInv(active, s, j, Ran, s.tokens, s.wg);
    case Receive(j) =>
      TokenHeld(active, s, j);
      WorkerStepInv(active, s, j, Released, s.tokens - 1, s.wg);
    case WgDone(j) => WorkerStepInv(active, s, j, Finished, s.tokens, s.wg - 1);
    case _ => MainStepInv(active, s, step);
  }

  /** A wrapper at its receive finds its own token in the channel. */
  lemma TokenHeld(active: nat, s: State, j: nat)
    requires Inv(active, s) && j < |s.phases| && s.phases[j] == Ran
    ensures s.tokens > 0 && !s.closed
  {
    SumMember(Holds, s.phases, j);
    SumMember(Counts, s.phases, j);
    hide Sum;
  }

  /** An interleaving of the goroutines leads from `s` to `t`. */
  ghost predicate Leads(active: nat, s: State, steps: seq<Step>, t: State)
    decreases |steps|
  {
    if steps == [] then s == t
    else Enabled(active, s, steps[0]) && Leads(active, Do(s, steps[0], active), steps[1..], t)
  }

  lemma {:induction false} LeadsInv(active: nat, s: State, steps: seq<Step>, t: State)
    requires Inv(active, s) && Leads(active, s, steps, t)
    ensures Inv(active, t) && |t.phases| == |s.phases|
    decreases |steps|
  {
    hide Inv, Enabled, Do;
    if steps != [] {
      StepInv(active, s, steps[0]);
      LeadsInv(active, Do(s, steps[0], active), steps[1..], t);
    }
  }

  // ----- What Run guarantees -------------------------------------------------

  ghost function InJob(p: Phase): nat { if p == Running then 1 else 0 }

  lemma {:induction false} FewerRunning(phases: seq<Phase>)
    ensures Sum(InJob, phases) <= Sum(Holds, phases)
  {
    if phases != [] {
      FewerRunning(phases[..|phases| - 1]);
    }
  }

  /**
   In every reachable state at most `active` jobs run and none has started twice;
   once Run has returned, every job has started once and finished, no token is
   left, and no goroutine is about to receive from the closed limiter.
   */
  lemma RunIsSafe(active: nat, jobs: nat, steps: seq<Step>, s: State)
    requires Leads(active, Init(jobs), steps, s)
    ensures |s.phases| == |s.starts| == jobs
    ensures Sum(InJob, s.phases) <= active
    ensures forall j :: 0 <= j < jobs ==> s.starts[j] <= 1
    ensures s.main.Returned? ==>
              && s.tokens == 0
              && forall j :: 0 <= j < jobs ==> s.phases[j] == Finished && s.starts[j] == 1
    ensures s.closed ==> forall j :: !Enabled(active, s, Receive(j))
  {
    InitInv(active, jobs);
    LeadsInv(active, Init(jobs), steps, s);
    FewerRunning(s.phases);
    SumZero(Counts, s.phases);
    SumZero(Holds, s.phases);
    hide Sum, Leads;
  }

  function ToDo(p: Phase): nat {
    match p case Waiting => 4 case Running => 3 case Ran => 2 case Released => 1 case Finished => 0
  }

  function MainToDo(s: State): int {
    var n := |s.phases|;
    match s.main
    case Sending(i) => 3 * (n - i) + 2
    case Adding(i) => 3 * (n - i) + 1
    case Spawning(i) => 3 * (n - i)
    case Closing => 1
    case Returned => 0
  }

  function Measure(s: State): int {
    MainToDo(s) + Sum(ToDo, s.phases)
  }

  /** Every step lowers the measure, so every run is finite. */
  lemma StepDecreases(active: nat, s: State, step: Step)
    requires Inv(active, s) && Enabled(active, s, step)
    ensures 0 <= Measure(Do(s, step, active)) < Measure(s)
  {
    StepInv(active, s, step);
    if step.Spawn? {
      SumUpdate(ToDo, s.phases, s.main.i, Running);
    } else if step.JobReturns? {
      SumUpdate(ToDo, s.phases, step.j, Ran);
    } else if step.Receive? {
      SumUpdate(ToDo, s.phases, step.j, Released);
    } else if step.WgDone? {
      SumUpdate(ToDo, s.phases, step.j, Finished);
    }
    hide Sum;
  }

  ghost predicate CanStep(active: nat, s: State) {
    exists step :: Enabled(active, s, step)
  }

  /** A wrapper that was started and has not finished can move. */
  lemma WorkerMoves(active: nat, s: State, j: nat)
    requires Inv(active, s) && j < |s.phases| && Counts(s.phases[j]) == 1
    ensures CanStep(active, s)
  {
    SumMember(Holds, s.phases, j);
    SumMember(Counts, s.phases, j);
    hide Sum;
    match s.phases[j]
    case Running => assert Enabled(active, s, JobReturns(j));
    case Ran => assert Enabled(active, s, Receive(j));
    case Released => assert Enabled(active, s, WgDone(j));
    case _ =>
  }

  /** No reachable state short of the end is stuck, given a positive limit. */
  lemma NeverStuck(active: nat, s: State)
    requires Inv(active, s) && active >= 1 && !s.main.Returned?
    ensures CanStep(active, s)
  {
    if s.wg > 0 && !s.main.Spawning? && !s.main.Adding? {
      SumZero(Counts, s.phases);
      var j :| 0 <= j < |s.phases| && Counts(s.phases[j]) != 0;
      WorkerMoves(active, s, j);
    } else {
      NoHolders(s.phases);
      match s.main
      case Sending(i) =>
        if i < |s.phases| { assert Enabled(active, s, Send); } else { assert Enabled(active, s, Join); }
      case Adding(_) => assert Enabled(active, s, Add);
      case Spawning(_) => assert Enabled(active, s, Spawn);
      case Closing => assert Enabled(active, s, Close);
    }
  }

  lemma NoHolders(phases: seq<Phase>)
    ensures Sum(Counts, phases) == 0 ==> Sum(Holds, phases) == 0
  {
    SumZero(Counts, phases);
    SumZero(Holds, phases);
  }

  /** The pool gets past its start exactly when the limit is positive or there is nothing to do. */
  lemma StartsIff(active: nat, jobs: nat)
    ensures CanStep(active, Init(jobs)) <==> active >= 1 || jobs == 0
  {
    if active >= 1 && jobs > 0 {
      assert Enabled(active, Init(jobs), Send);
    } else if jobs == 0 {
      assert Enabled(active, Init(jobs), Join);
    }
  }

  /** The pool object: a limit and the submitted jobs. */
  class Batch<Job> {
    const active: nat
    var jobs: seq<Job>

    constructor (active: nat)
      ensures this.active == active && jobs == []
    {
      this.active := active;
      jobs := [];
    }

    method Submit(f: Job)
      modifies this
      ensures jobs == old(jobs) + [f]
    {
      jobs := jobs + [f];
    }

    /** Run under an arbitrary scheduler: it ends, and every job has run once. */
    method Run() returns (s: State)
      requires active >= 1 || jobs == []
      ensures s.main.Returned? && |s.phases| == |s.starts| == |jobs|
      ensures forall j :: 0 <= j < |jobs| ==> s.phases[j] == Finished && s.starts[j] == 1
    {
      hide *;
      s := Init(|jobs|);
      InitInv(active, |jobs|);
      InitShape(|jobs|);
      while !s.main.Returned?
        invariant Inv(active, s) && |s.phases| == |jobs|
        decreases Measure(s)
      {
        if active >= 1 { NeverStuck(active, s); } else { NothingToDo(s, active); }
        CanStepIs(active, s);
        var step :| Enabled(active, s, step);
        StepInv(active, s, step);
        StepDecreases(active, s, step);
        s := Do(s, step, active);
      }
      AtTheEnd(active, s);
    }
  }

  lemma InitShape(jobs: nat)
    ensures |Init(jobs).phases| == jobs
  {
  }

  lemma CanStepIs(active: nat, s: State)
    requires CanStep(active, s)
    ensures exists step :: Enabled(active, s, step)
  {
  }

  lemma NothingToDo(s: State, active: nat)
    requires Inv(active, s) && s.phases == [] && !s.main.Returned?
    ensures CanStep(active, s)
  {
    if s.main.Sending? { assert Enabled(active, s, Join); } else { assert Enabled(active, s, Close); }
  }

  lemma AtTheEnd(active: nat, s: State)
    requires Inv(active, s) && s.main.Returned?
    ensures |s.starts| == |s.phases|
    ensures forall j :: 0 <= j < |s.phases| ==> s.phases[j] == Finished && s.starts[j] == 1
  {
    SumZero(Counts, s.phases);
    hide Sum;
  }
}
