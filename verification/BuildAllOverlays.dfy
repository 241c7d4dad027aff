/**
 BuildAllOverlays of internal/pkg/overlay/overlay.go as a step system: workers
 drain a node channel, build two overlays per node and queue their errors.
 */
module BuildAllOverlays {
  import opened Sums

  /** How far the builds of one node have come. */
  datatype Stage = Queued | InSystem | InRuntime | Built

  datatype Worker = Idle | Busy(node: nat) | Exited

  /** Which builds fail; fixed for a run, and unknown to the scheduler. */
  datatype Fails = Fails(system: seq<bool>, runtime: seq<bool>)

  /** `taken` nodes have been received; `errors` are queued in the error channel. */
  datatype State = State(started: nat, sent: nat, taken: nat, closed: bool, stages: seq<Stage>,
                         workers: seq<Worker>, errors: nat, result: Result)

  /** What the call returns: nothing yet, nil, or an error. */
  datatype Result = Pending | Nil | Error

  datatype Step =
    | Start
    | Send
    | CloseNodes
    | Return
    | Receive(w: nat)
    | Exit(w: nat)
    | BuildSystem(w: nat)
    | BuildRuntime(w: nat)

  function Init(nodes: nat, workerCount: nat): State {
    State(0, 0, 0, false, seq(nodes, _ => Queued), seq(workerCount, _ => Idle), 0, Pending)
  }

  /** The error channel holds two errors per node. */
  predicate Room(s: State, fails: bool) {
    fails ==> s.errors < 2 * |s.stages|
  }

  predicate Running(s: State, w: nat) {
    w < |s.workers| && w < s.started
  }

  predicate AtStage(s: State, w: nat, stage: Stage) {
    Running(s, w) && s.workers[w].Busy? && s.workers[w].node < |s.stages| && s.stages[s.workers[w].node] == stage
  }

  predicate Enabled(f: Fails, s: State, step: Step)
    requires |f.system| == |f.runtime| == |s.stages|
  {
    match step
    case Start => s.started < |s.workers|
    case Send => s.started == |s.workers| && s.sent < |s.stages|
    case CloseNodes => s.started == |s.workers| && s.sent == |s.stages| && !s.closed
    case Return => s.closed && s.result.Pending? && forall w :: 0 <= w < |s.workers| ==> s.workers[w].Exited?
    case Receive(w) => Running(s, w) && s.workers[w].Idle? && s.taken < s.sent && s.taken < |s.stages|
    case Exit(w) => Running(s, w) && s.workers[w].Idle? && s.closed && s.taken == s.sent
    case BuildSystem(w) => AtStage(s, w, InSystem) && Room(s, f.system[s.workers[w].node])
    case BuildRuntime(w) => AtStage(s, w, InRuntime) && Room(s, f.runtime[s.workers[w].node])
  }

  function One(b: bool): nat { if b then 1 else 0 }

  function Do(f: Fails, s: State, step: Step): State
    requires |f.system| == |f.runtime| == |s.stages| && Enabled(f, s, step)
  {
    match step
    case Start => s.(started := s.started + 1)
    case Send => s.(sent := s.sent + 1)
    case CloseNodes => s.(closed := true)
    case Return => s.(result := if s.errors > 0 then Error else Nil)
    case Receive(w) =>
      s.(taken := s.taken + 1, stages := s.stages[s.taken := InSystem], workers := s.workers[w := Busy(s.taken)])
    case Exit(w) => s.(workers := s.workers[w := Exited])
    case BuildSystem(w) =>
      var n := s.workers[w].node;
      s.(stages := s.stages[n := InRuntime], errors := s.errors + One(f.system[n]))
    case BuildRuntime(w) =>
      var n := s.workers[w].node;
      s.(stages := s.stages[n := Built], errors := s.errors + One(f.runtime[n]), workers := s.workers[w := Idle])
  }

  /** Errors queued by the builds of one node so far. */
  function ErrorsOf(f: Fails, i: nat, stage: Stage): nat
    requires i < |f.system| == |f.runtime|
  {
    match stage
    case InRuntime => One(f.system[i])
    case Built => One(f.system[i]) + One(f.runtime[i])
    case _ => 0
  }

  function Errors(f: Fails, stages: seq<Stage>): (n: nat)
    requires |f.system| == |f.runtime| && |stages| <= |f.system|
    ensures n <= 2 * |stages|
  {
    if stages == [] then 0
    else Errors(f, stages[..|stages| - 1]) + ErrorsOf(f, |stages| - 1, stages[|stages| - 1])
  }

  lemma {:induction false} ErrorsUpdate(f: Fails, stages: seq<Stage>, i: nat, stage: Stage)
    requires |f.system| == |f.runtime| && |stages| <= |f.system| && i < |stages|
    ensures Errors(f, stages[i := stage]) + ErrorsOf(f, i, stages[i]) == Errors(f, stages) + ErrorsOf(f, i, stage)
  {
    var n := |stages| - 1;
    if i == n {
      assert stages[i := stage][..n] == stages[..n];
    } else {
      ErrorsUpdate(f, stages[..n], i, stage);
      assert stages[i := stage][..n] == stages[..n][i := stage];
    }
  }

  /** A node short of its end leaves room for the error it may still queue. */
  lemma {:induction false} ErrorsRoom(f: Fails, stages: seq<Stage>, i: nat)
    requires |f.system| == |f.runtime| && |stages| <= |f.system| && i < |stages| && stages[i] != Built
    ensures Errors(f, stages) < 2 * |stages|
  {
    ErrorsUpdate(f, stages, i, Queued);
    ErrorsBuiltBound(f, stages, i);
  }

  lemma {:induction false} ErrorsBuiltBound(f: Fails, stages: seq<Stage>, i: nat)
    requires |f.system| == |f.runtime| && |stages| <= |f.system| && i < |stages|
    ensures Errors(f, stages) - ErrorsOf(f, i, stages[i]) <= 2 * (|stages| - 1)
  {
    var n := |stages| - 1;
    if i < n {
      ErrorsBuiltBound(f, stages[..n], i);
    }
  }

  lemma {:induction false} ErrorsZero(f: Fails, stages: seq<Stage>)
    requires |f.system| == |f.runtime| && |stages| <= |f.system|
    requires forall i :: 0 <= i < |stages| ==> stages[i] == Built
    ensures Errors(f, stages) == 0 <==> forall i :: 0 <= i < |stages| ==> !f.system[i] && !f.runtime[i]
  {
    if stages != [] {
      ErrorsZero(f, stages[..|stages| - 1]);
    }
  }

  /** The counters of main, and the stages of the nodes still in the channel. */
  ghost predicate Bounds(f: Fails, s: State) {
    && |f.system| == |f.runtime| == |s.stages|
    && s.started <= |s.workers| && s.taken <= s.sent <= |s.stages|
    && (s.closed ==> s.sent == |s.stages| && s.started == |s.workers|)
    && (forall i :: 0 <= i < |s.stages| ==> (s.stages[i] == Queued <==> i >= s.taken))
  }

  predicate UnderWay(stage: Stage) {
    stage == InSystem || stage == InRuntime
  }

  /** A node is under way exactly when one worker holds it. */
  ghost predicate Holding(stages: seq<Stage>, workers: seq<Worker>) {
    && (forall w :: 0 <= w < |workers| && workers[w].Busy? ==>
          workers[w].node < |stages| && UnderWay(stages[workers[w].node]))
    && (forall v, w :: 0 <= v < |workers| && 0 <= w < |workers| && workers[v].Busy? ==>
          (workers[v] == workers[w] ==> v == w))
    && (forall i :: 0 <= i < |stages| && UnderWay(stages[i]) ==> Busy(i) in workers)
  }

  /** Workers start idle, and leave only when the closed channel is empty. */
  ghost predicate Leaving(s: State) {
    && (forall w :: s.started <= w < |s.workers| ==> s.workers[w].Idle?)
    && (forall w :: 0 <= w < |s.workers| && s.workers[w].Exited? ==> s.closed && s.taken == s.sent)
    && (!s.result.Pending? ==>
          && s.closed && (forall w :: 0 <= w < |s.workers| ==> s.workers[w].Exited?)
          && (s.result == Nil <==> s.errors == 0))
  }

  ghost predicate Inv(f: Fails, s: State) {
    Bounds(f, s) && Holding(s.stages, s.workers) && Leaving(s) && s.errors == Errors(f, s.stages)
  }

  lemma {:induction false} ErrorsNone(f: Fails, stages: seq<Stage>)
    requires |f.system| == |f.runtime| && |stages| <= |f.system|
    requires forall i :: 0 <= i < |stages| ==> stages[i] == Queued
    ensures Errors(f, stages) == 0
  {
    if stages != [] {
      ErrorsNone(f, stages[..|stages| - 1]);
    }
  }

  lemma InitInv(f: Fails, nodes: nat, workerCount: nat)
    requires |f.system| == |f.runtime| == nodes
    ensures Inv(f, Init(nodes, workerCount))
  {
    ErrorsNone(f, Init(nodes, workerCount).stages);
    hide Errors;
  }

  lemma MainStepInv(f: Fails, s: State, step: Step)
    requires Inv(f, s) && Enabled(f, s, step) && (step.Start? || step.Send? || step.CloseNodes? || step.Return?)
    ensures Inv(f, Do(f, s, step))
  {
    hide Errors, Holding;
  }

  /** A worker that takes, keeps or gives up a node. */
  lemma HoldingStep(stages: seq<Stage>, workers: seq<Worker>, w: nat, x: Worker, n: nat, stage: Stage)
    requires Holding(stages, workers) && w < |workers| && n < |stages|
    requires (workers[w] == Idle && !UnderWay(stages[n])) || workers[w] == Busy(n)
    requires if UnderWay(stage) then x == Busy(n) else x == Idle
    ensures Holding(stages[n := stage], workers[w := x])
  {
    var stages', workers' := stages[n := stage], workers[w := x];
    hide UnderWay;
    forall v | 0 <= v < |workers| && v != w ensures workers[v] != Busy(n) {
    }
    forall i | 0 <= i < |stages| && UnderWay(stages'[i]) ensures Busy(i) in workers' {
      if i == n {
        assert workers'[w] == x;
      } else {
        var v :| 0 <= v < |workers| && workers[v] == Busy(i);
        assert workers'[v] == Busy(i);
      }
    }
  }

  lemma HoldingExit(stages: seq<Stage>, workers: seq<Worker>, w: nat)
    requires Holding(stages, workers) && w < |workers| && workers[w] == Idle
    ensures Holding(stages, workers[w := Exited])
  {
    hide UnderWay;
    forall i | 0 <= i < |stages| && UnderWay(stages[i]) ensures Busy(i) in workers[w := Exited] {
      var v :| 0 <= v < |workers| && workers[v] == Busy(i);
      assert workers[w := Exited][v] == Busy(i);
    }
  }

  lemma WorkerStepInv(f: Fails, s: State, step: Step)
    requires Inv(f, s) && Enabled(f, s, step)
    requires step.Receive? || step.Exit? || step.BuildSystem? || step.BuildRuntime?
    ensures Inv(f, Do(f, s, step))
  {
    hide Errors, Holding;
    match step {
      case Receive(w) =>
        HoldingStep(s.stages, s.workers, w, Busy(s.taken), s.taken, InSystem);
        ErrorsUpdate(f, s.stages, s.taken, InSystem);
      case Exit(w) =>
        HoldingExit(s.stages, s.workers, w);
      case BuildSystem(w) =>
        var n := s.workers[w].node;
        HoldingStep(s.stages, s.workers, w, Busy(n), n, InRuntime);
        assert s.workers[w := Busy(n)] == s.workers;
        ErrorsUpdate(f, s.stages, n, InRuntime);
      case BuildRuntime(w) =>
        var n := s.workers[w].node;
        HoldingStep(s.stages, s.workers, w, Idle, n, Built);
        ErrorsUpdate(f, s.stages, n, Built);
    }
  }

  lemma StepInv(f: Fails, s: State, step: Step)
    requires Inv(f, s) && Enabled(f, s, step)
    ensures Inv(f, Do(f, s, step))
    ensures |Do(f, s, step).stages| == |s.stages| && |Do(f, s, step).workers| == |s.workers|
  {
    assert |f.system| == |f.runtime| == |s.stages|;
    hide Inv;
    match step
    case Start => MainStepInv(f, s, step);
    case Send => MainStepInv(f, s, step);
    case CloseNodes => MainStepInv(f, s, step);
    case Return => MainStepInv(f, s, step);
    case _ => WorkerStepInv(f, s, step);
  }

  /** An interleaving of main and the workers leads from `s` to `t`. */
  ghost predicate Leads(f: Fails, s: State, steps: seq<Step>, t: State)
    requires |f.system| == |f.runtime| == |s.stages|
    decreases |steps|
  {
    if steps == [] then s == t
    else Enabled(f, s, steps[0]) && Leads(f, Do(f, s, steps[0]), steps[1..], t)
  }

  lemma {:induction false} LeadsInv(f: Fails, s: State, steps: seq<Step>, t: State)
    requires Inv(f, s) && Leads(f, s, steps, t)
    ensures Inv(f, t) && |t.stages| == |s.stages| && |t.workers| == |s.workers|
    decreases |steps|
  {
    assert |f.system| == |f.runtime| == |s.stages|;
    hide Inv, Enabled, Do;
    if steps != [] {
      StepInv(f, s, steps[0]);
      LeadsInv(f, Do(f, s, steps[0]), steps[1..], t);
    }
  }

  // ----- What the call guarantees --------------------------------------------

  /** In every reachable state an error send finds room, and at most two errors per received node are queued. */
  lemma SendsNeverBlock(f: Fails, s: State, w: nat)
    requires Inv(f, s) && w < |s.workers| && s.workers[w].Busy?
    ensures Room(s, true)
  {
    ErrorsRoom(f, s.stages, s.workers[w].node);
    hide Errors;
  }

  lemma {:induction false} ErrorsTaken(f: Fails, stages: seq<Stage>, taken: nat)
    requires |f.system| == |f.runtime| && taken <= |stages| <= |f.system|
    requires forall i :: taken <= i < |stages| ==> stages[i] == Queued
    ensures Errors(f, stages) <= 2 * taken
  {
    if |stages| > taken {
      ErrorsTaken(f, stages[..|stages| - 1], taken);
    }
  }

  lemma NoneUnderWay(stages: seq<Stage>, workers: seq<Worker>)
    requires Holding(stages, workers) && forall w :: 0 <= w < |workers| ==> workers[w].Exited?
    ensures forall i :: 0 <= i < |stages| ==> !UnderWay(stages[i])
  {
    hide UnderWay;
    assert forall x :: x in workers ==> x.Exited?;
  }

  /**
   With a worker, whatever the interleaving: no send on the error channel blocks,
   and once the call returns every node was received and built, and the result is
   nil exactly when no build failed.
   */
  lemma BuildsAll(f: Fails, nodes: nat, workerCount: nat, steps: seq<Step>, s: State)
    requires |f.system| == |f.runtime| == nodes && Leads(f, Init(nodes, workerCount), steps, s)
    ensures |s.stages| == nodes && s.errors <= 2 * s.taken
    ensures forall w :: 0 <= w < |s.workers| && s.workers[w].Busy? ==> Room(s, true)
    ensures !s.result.Pending? && workerCount >= 1 ==>
              && s.taken == nodes
              && (forall i :: 0 <= i < nodes ==> s.stages[i] == Built)
              && (s.result == Nil <==> forall i :: 0 <= i < nodes ==> !f.system[i] && !f.runtime[i])
  {
    InitInv(f, nodes, workerCount);
    LeadsInv(f, Init(nodes, workerCount), steps, s);
    ErrorsTaken(f, s.stages, s.taken);
    forall w | 0 <= w < |s.workers| && s.workers[w].Busy? ensures Room(s, true) {
      SendsNeverBlock(f, s, w);
    }
    if !s.result.Pending? && workerCount >= 1 {
      assert s.workers[0].Exited?;
      NoneUnderWay(s.stages, s.workers);
      assert forall i :: 0 <= i < nodes ==> s.stages[i] == Built;
      ErrorsZero(f, s.stages);
    }
    hide Errors, Leads;
  }

  /** Without a worker the call reports success and has built nothing. */
  lemma NoWorkersNoBuild(f: Fails, nodes: nat, steps: seq<Step>, s: State)
    requires |f.system| == |f.runtime| == nodes && Leads(f, Init(nodes, 0), steps, s) && !s.result.Pending?
    ensures |s.stages| == nodes
    ensures s.result == Nil && forall i :: 0 <= i < nodes ==> s.stages[i] == Queued
  {
    InitInv(f, nodes, 0);
    LeadsInv(f, Init(nodes, 0), steps, s);
    hide Leads;
    forall i | 0 <= i < nodes ensures s.stages[i] == Queued {
      UntouchedStays(f, Init(nodes, 0), steps, s, i);
    }
    ErrorsNone(f, s.stages);
  }

  lemma {:induction false} UntouchedStays(f: Fails, s: State, steps: seq<Step>, t: State, i: nat)
    requires Inv(f, s) && s.workers == [] && i < |s.stages| && s.stages[i] == Queued && Leads(f, s, steps, t)
    ensures |t.stages| == |s.stages| && t.stages[i] == Queued
    decreases |steps|
  {
    if steps != [] {
      StepInv(f, s, steps[0]);
      hide Inv;
      UntouchedStays(f, Do(f, s, steps[0]), steps[1..], t, i);
    }
  }

  // ----- Progress ------------------------------------------------------------

  function StageToDo(stage: Stage): nat {
    match stage case Queued => 3 case InSystem => 2 case InRuntime => 1 case Built => 0
  }

  function Present(w: Worker): nat {
    One(!w.Exited?)
  }

  function Measure(s: State): int {
    (|s.workers| - s.started) + (|s.stages| - s.sent) + One(!s.closed) + One(s.result.Pending?) +
    Sum(StageToDo, s.stages) + Sum(Present, s.workers)
  }

  /** Every step lowers the measure, so every run is finite. */
  lemma StepDecreases(f: Fails, s: State, step: Step)
    requires Inv(f, s) && Enabled(f, s, step)
    ensures 0 <= Measure(Do(f, s, step)) < Measure(s)
  {
    hide Errors, Holding, Leaving, Sum;
    match step {
      case Receive(w) =>
        SumUpdate(StageToDo, s.stages, s.taken, InSystem);
        SumUpdate(Present, s.workers, w, Busy(s.taken));
      case Exit(w) =>
        SumUpdate(Present, s.workers, w, Exited);
      case BuildSystem(w) =>
        SumUpdate(StageToDo, s.stages, s.workers[w].node, InRuntime);
      case BuildRuntime(w) =>
        SumUpdate(StageToDo, s.stages, s.workers[w].node, Built);
        SumUpdate(Present, s.workers, w, Idle);
      case _ =>
    }
  }

  ghost predicate CanStep(f: Fails, s: State)
    requires |f.system| == |f.runtime| == |s.stages|
  {
    exists step :: Enabled(f, s, step)
  }

  /** No state short of the return is stuck, for any number of workers. */
  lemma NeverStuck(f: Fails, s: State)
    requires Inv(f, s) && s.result.Pending?
    ensures CanStep(f, s)
  {
    hide Errors;
    if s.started < |s.workers| {
      assert Enabled(f, s, Start);
    } else if s.sent < |s.stages| {
      assert Enabled(f, s, Send);
    } else if !s.closed {
      assert Enabled(f, s, CloseNodes);
    } else if w :| 0 <= w < |s.workers| && s.workers[w].Busy? {
      SendsNeverBlock(f, s, w);
      if s.stages[s.workers[w].node] == InSystem {
        assert Enabled(f, s, BuildSystem(w));
      } else {
        assert Enabled(f, s, BuildRuntime(w));
      }
    } else if w :| 0 <= w < |s.workers| && s.workers[w].Idle? {
      if s.taken < s.sent {
        assert Enabled(f, s, Receive(w));
      } else {
        assert Enabled(f, s, Exit(w));
      }
    } else {
      assert Enabled(f, s, Return);
    }
  }
}
