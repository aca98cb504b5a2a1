/** Starting and stopping the miner under any interleaving of its goroutines. Every effective
    Start makes quit channel number k and spawns worker number k; the worker spawns one
    generator with a quit channel of its own, later reads the miner's quit field once, and
    closes the generator's channel when the channel it read is closed. */
module MinerLifecycle {
  datatype Worker =
    | Created
    | Spawned                 // the generator runs, the quit field is not read yet
    | Waiting(channel: nat)   // blocked on the channel it read
    | Finished

  datatype Generator = NotSpawned | Mining | Exited(called: bool)

  /** `closes[k]` counts the closes of quit channel k and `localCloses[k]` those of the
      channel of generator k; closing twice would crash. */
  datatype State = State(
    started: bool,
    closes: seq<nat>,
    workers: seq<Worker>,
    generators: seq<Generator>,
    localCloses: seq<nat>,
    callbacks: nat)

  datatype Step =
    | Start
    | Stop
    | SpawnGenerator(k: nat)
    | ReadQuit(k: nat)
    | Wake(k: nat)
    | Poll(k: nat)
    | Solve(k: nat)

  const INITIAL := State(false, [], [], [], [], 0)

  predicate Enabled(s: State, step: Step) {
    match step
    case Start => true
    case Stop => s.started ==> |s.closes| > 0
    case SpawnGenerator(k) => k < |s.workers| && s.workers[k].Created? && k < |s.generators|
    case ReadQuit(k) => k < |s.workers| && s.workers[k].Spawned? && |s.closes| > 0
    case Wake(k) => k < |s.workers| && s.workers[k].Waiting? && s.workers[k].channel < |s.closes| && s.closes[s.workers[k].channel] > 0 && k < |s.localCloses|
    case Poll(k) => k < |s.generators| && s.generators[k].Mining? && k < |s.localCloses|
    case Solve(k) => k < |s.generators| && s.generators[k].Mining?
  }

  /** The miner's quit field holds the newest channel, open or closed. */
  function Current(s: State): nat
    requires |s.closes| > 0
  {
    |s.closes| - 1
  }

  function Apply(s: State, step: Step): State
    requires Enabled(s, step)
  {
    match step
    case Start =>
      if s.started then s
      else State(true, s.closes + [0], s.workers + [Created], s.generators + [NotSpawned], s.localCloses + [0], s.callbacks)
    case Stop =>
      if !s.started then s
      else s.(started := false, closes := s.closes[Current(s) := s.closes[Current(s)] + 1])
    case SpawnGenerator(k) => s.(workers := s.workers[k := Spawned], generators := s.generators[k := Mining])
    case ReadQuit(k) => s.(workers := s.workers[k := Waiting(Current(s))])
    case Wake(k) => s.(workers := s.workers[k := Finished], localCloses := s.localCloses[k := s.localCloses[k] + 1])
    case Poll(k) => if s.localCloses[k] > 0 then s.(generators := s.generators[k := Exited(false)]) else s
    case Solve(k) => s.(generators := s.generators[k := Exited(true)], callbacks := s.callbacks + 1)
  }

  function Run(s: State, steps: seq<Step>): State {
    if steps == [] then s
    else
      var t := Run(s, steps[..|steps| - 1]);
      var step := steps[|steps| - 1];
      if Enabled(t, step) then Apply(t, step) else t
  }

  function Called(gs: seq<Generator>): nat {
    if gs == [] then 0 else Called(gs[..|gs| - 1]) + (if gs[|gs| - 1] == Exited(true) then 1 else 0)
  }

  ghost predicate Inv(s: State) {
    && |s.workers| == |s.closes| == |s.generators| == |s.localCloses|
    && (s.started <==> |s.closes| > 0 && s.closes[Current(s)] == 0)
    && (forall c :: 0 <= c < |s.closes| ==> s.closes[c] <= 1)
    && (forall c :: 0 <= c < |s.closes| - 1 ==> s.closes[c] == 1)
    && (forall k :: 0 <= k < |s.workers| ==> WorkerInv(s, k))
    && s.callbacks == Called(s.generators)
  }

  ghost predicate WorkerInv(s: State, k: nat)
    requires k < |s.workers| == |s.generators| == |s.localCloses|
  {
    && (s.workers[k].Waiting? ==> k <= s.workers[k].channel < |s.closes|)
    && (s.localCloses[k] == if s.workers[k].Finished? then 1 else 0)
    && (s.generators[k].NotSpawned? <==> s.workers[k].Created?)
  }

  lemma {:induction false} CalledUpdate(gs: seq<Generator>, k: nat, g: Generator)
    requires k < |gs| && gs[k] != Exited(true)
    ensures Called(gs[k := g]) == Called(gs) + if g == Exited(true) then 1 else 0
  {
    var n := |gs| - 1;
    if k < n {
      CalledUpdate(gs[..n], k, g);
      assert gs[k := g][..n] == gs[..n][k := g];
    } else {
      assert gs[k := g][..n] == gs[..n];
    }
  }

  lemma {:induction false} CalledBound(gs: seq<Generator>)
    ensures Called(gs) <= |gs|
  {
    if gs != [] {
      CalledBound(gs[..|gs| - 1]);
    }
  }

  lemma StepKeepsChannels(s: State, step: Step)
    requires Inv(s) && Enabled(s, step)
    ensures var t := Apply(s, step);
            && (t.started <==> |t.closes| > 0 && t.closes[Current(t)] == 0)
            && (forall c :: 0 <= c < |t.closes| ==> t.closes[c] <= 1)
            && (forall c :: 0 <= c < |t.closes| - 1 ==> t.closes[c] == 1)
  {
  }

  lemma StepCounts(s: State, step: Step)
    requires Inv(s) && Enabled(s, step)
    ensures Apply(s, step).callbacks == Called(Apply(s, step).generators)
  {
    match step
    case Start =>
      assert (s.generators + [NotSpawned])[..|s.generators|] == s.generators;
    case Stop =>
    case SpawnGenerator(k) =>
      StepKeepsWorkers(s, step);
      CalledUpdate(s.generators, k, Mining);
    case ReadQuit(_) =>
    case Wake(_) =>
    case Poll(k) => CalledUpdate(s.generators, k, Exited(false));
    case Solve(k) => CalledUpdate(s.generators, k, Exited(true));
  }

  lemma StepKeepsInv(s: State, step: Step)
    requires Inv(s) && Enabled(s, step)
    ensures Inv(Apply(s, step))
  {
    StepKeepsWorkers(s, step);
    StepKeepsChannels(s, step);
    StepCounts(s, step);
  }

  lemma StepKeepsWorkers(s: State, step: Step)
    requires Inv(s) && Enabled(s, step)
    ensures var t := Apply(s, step);
            && |t.workers| == |t.closes| == |t.generators| == |t.localCloses|
            && (forall k :: 0 <= k < |t.workers| ==> WorkerInv(t, k))
    ensures step.SpawnGenerator? ==> s.generators[step.k].NotSpawned?
  {
    var t := Apply(s, step);
    forall k | 0 <= k < |t.workers| ensures WorkerInv(t, k) {
      assert k < |s.workers| ==> WorkerInv(s, k);
    }
    if step.SpawnGenerator? {
      assert WorkerInv(s, step.k);
    }
  }

  lemma {:induction false} RunKeepsInv(steps: seq<Step>)
    ensures Inv(Run(INITIAL, steps))
  {
    if steps != [] {
      var t := Run(INITIAL, steps[..|steps| - 1]);
      RunKeepsInv(steps[..|steps| - 1]);
      if Enabled(t, steps[|steps| - 1]) {
        StepKeepsInv(t, steps[|steps| - 1]);
      }
    }
  }

  /** A worker is blocked when it waits on an open channel. */
  ghost predicate Blocked(s: State, k: nat) {
    k < |s.workers| && s.workers[k].Waiting? && s.workers[k].channel < |s.closes| && s.closes[s.workers[k].channel] == 0
  }

  /** In every reachable state: started holds exactly when the current channel is open, older
      channels are closed, nothing has been closed twice, only a started miner has a blocked
      worker, and callbacks never exceed the effective Starts. */
  lemma LifecycleSafe(steps: seq<Step>)
    ensures var s := Run(INITIAL, steps);
            && (s.started <==> |s.closes| > 0 && s.closes[Current(s)] == 0)
            && (forall c :: 0 <= c < |s.closes| - 1 ==> s.closes[c] == 1)
            && (forall c :: 0 <= c < |s.closes| ==> s.closes[c] <= 1)
            && (forall k :: 0 <= k < |s.localCloses| ==> s.localCloses[k] <= 1)
            && (forall k: nat :: Blocked(s, k) ==> s.started && s.workers[k].channel == Current(s))
            && s.callbacks <= |s.closes|
  {
    var s := Run(INITIAL, steps);
    RunKeepsInv(steps);
    CalledBound(s.generators);
    forall k | 0 <= k < |s.localCloses| ensures s.localCloses[k] <= 1 {
      assert WorkerInv(s, k);
    }
  }

  ghost predicate SolvedBy(steps: seq<Step>, k: nat) {
    exists i :: 0 <= i < |steps| && SolvesAt(steps, i, k)
  }

  /** Generator k solves its block in step i. */
  ghost predicate SolvesAt(steps: seq<Step>, i: nat, k: nat)
    requires i < |steps|
  {
    steps[i] == Solve(k) && Enabled(Run(INITIAL, steps[..i]), steps[i])
  }

  lemma SolvedByFront(steps: seq<Step>, k: nat)
    requires steps != []
    ensures SolvedBy(steps, k) <==> SolvedBy(steps[..|steps| - 1], k) || SolvesAt(steps, |steps| - 1, k)
  {
    var front := steps[..|steps| - 1];
    forall i: nat | i < |front| ensures SolvesAt(front, i, k) <==> SolvesAt(steps, i, k) {
      assert front[..i] == steps[..i];
    }
  }

  /** The callback is called for exactly the generators that solved their block, once for each. */
  lemma {:induction false} CalledIff(steps: seq<Step>, k: nat)
    ensures var s := Run(INITIAL, steps);
            && (k < |s.generators| && s.generators[k] == Exited(true) <==> SolvedBy(steps, k))
            && s.callbacks == Called(s.generators)
  {
    RunKeepsInv(steps);
    if steps != [] {
      var front, step := steps[..|steps| - 1], steps[|steps| - 1];
      CalledIff(front, k);
      SolvedByFront(steps, k);
      RunKeepsInv(front);
      var t := Run(INITIAL, front);
      if Enabled(t, step) && step.SpawnGenerator? {
        StepKeepsWorkers(t, step);
      }
    }
  }

  /** Steps a stopped miner's goroutines still have to take. */
  function WorkerSteps(w: Worker): nat {
    match w
    case Created => 3
    case Spawned => 2
    case Waiting(_) => 1
    case Finished => 0
  }

  /** A generator not spawned yet counts through its worker's spawning step. */
  function GeneratorSteps(g: Generator): nat {
    if g.Exited? then 0 else 1
  }

  function Remaining(ws: seq<Worker>, gs: seq<Generator>): nat
    requires |ws| == |gs|
  {
    if ws == [] then 0
    else Remaining(ws[..|ws| - 1], gs[..|gs| - 1]) + WorkerSteps(ws[|ws| - 1]) + GeneratorSteps(gs[|gs| - 1])
  }

  lemma {:induction false} RemainingUpdate(ws: seq<Worker>, gs: seq<Generator>, k: nat, w: Worker, g: Generator)
    requires k < |ws| == |gs|
    ensures Remaining(ws[k := w], gs[k := g]) == Remaining(ws, gs)
            + WorkerSteps(w) + GeneratorSteps(g) - WorkerSteps(ws[k]) - GeneratorSteps(gs[k])
    decreases |ws|
  {
    var n := |ws| - 1;
    if k < n {
      RemainingUpdate(ws[..n], gs[..n], k, w, g);
      assert ws[k := w][..n] == ws[..n][k := w] && gs[k := g][..n] == gs[..n][k := g];
    } else {
      assert ws[k := w][..n] == ws[..n] && gs[k := g][..n] == gs[..n];
    }
  }

  lemma {:induction false} NothingRemaining(ws: seq<Worker>, gs: seq<Generator>)
    requires |ws| == |gs|
    ensures Remaining(ws, gs) == 0 <==> forall k :: 0 <= k < |ws| ==> ws[k].Finished? && gs[k].Exited?
  {
    if ws != [] {
      var n := |ws| - 1;
      NothingRemaining(ws[..n], gs[..n]);
      if Remaining(ws, gs) == 0 {
        forall k | 0 <= k < |ws| ensures ws[k].Finished? && gs[k].Exited? {
          assert k < n ==> ws[..n][k] == ws[k] && gs[..n][k] == gs[k];
        }
      }
    }
  }

  /** The step moves a goroutine forward: anything but Start, Stop, and a generator's poll that
      finds its channel still open. */
  ghost predicate Advances(s: State, step: Step) {
    Enabled(s, step) && !step.Start? && !step.Stop? && (step.Poll? ==> s.localCloses[step.k] > 0)
  }

  lemma AdvanceCounts(s: State, step: Step)
    requires Inv(s) && Advances(s, step)
    ensures var t := Apply(s, step); Inv(t) && Remaining(t.workers, t.generators) == Remaining(s.workers, s.generators) - 1
  {
    StepKeepsInv(s, step);
    var t := Apply(s, step);
    var k := step.k;
    assert WorkerInv(s, k);
    RemainingUpdate(s.workers, s.generators, k, t.workers[k], t.generators[k]);
    assert s.workers[k := t.workers[k]] == t.workers && s.generators[k := t.generators[k]] == t.generators;
  }

  /** Whatever a stopped miner's goroutines have done so far, as long as one is left some
      goroutine can advance, even one that reads the quit field only now. */
  lemma StoppedNeverStuck(s: State)
    requires Inv(s) && !s.started && Remaining(s.workers, s.generators) > 0
    ensures exists step :: Advances(s, step)
  {
    NothingRemaining(s.workers, s.generators);
    var k :| 0 <= k < |s.workers| && !(s.workers[k].Finished? && s.generators[k].Exited?);
    assert WorkerInv(s, k);
    match s.workers[k]
    case Created => assert Advances(s, SpawnGenerator(k));
    case Spawned => assert Advances(s, ReadQuit(k));
    case Waiting(c) => assert Advances(s, Wake(k));
    case Finished => assert Advances(s, Poll(k));
  }

  ghost predicate AllAdvance(s: State, steps: seq<Step>) {
    steps == [] || (AllAdvance(s, steps[..|steps| - 1]) && Advances(Run(s, steps[..|steps| - 1]), steps[|steps| - 1]))
  }

  /** Draining terminates: from any reachable state the goroutines can advance at most
      Remaining times without another Start or Stop, and after exactly that many steps every
      worker has finished and every generator has exited. */
  lemma {:induction false} DrainBound(s: State, steps: seq<Step>)
    requires Inv(s) && AllAdvance(s, steps)
    ensures var t := Run(s, steps);
            && Inv(t) && t.started == s.started
            && Remaining(t.workers, t.generators) + |steps| == Remaining(s.workers, s.generators)
            && (|steps| == Remaining(s.workers, s.generators) <==>
                forall k :: 0 <= k < |t.workers| ==> t.workers[k].Finished? && t.generators[k].Exited?)
  {
    if steps != [] {
      var t := Run(s, steps[..|steps| - 1]);
      DrainBound(s, steps[..|steps| - 1]);
      AdvanceCounts(t, steps[|steps| - 1]);
    }
    NothingRemaining(Run(s, steps).workers, Run(s, steps).generators);
  }

  /** A worker that has finished, or waits on a closed channel. */
  ghost predicate Settled(s: State, k: nat) {
    && |s.workers| == |s.closes| && k < |s.workers|
    && (s.workers[k].Finished? || (s.workers[k].Waiting? && s.workers[k].channel < |s.closes| && s.closes[s.workers[k].channel] > 0))
  }

  lemma {:induction false} StaysSettled(s: State, steps: seq<Step>, k: nat)
    requires Inv(s) && Settled(s, k)
    ensures Inv(Run(s, steps)) && Settled(Run(s, steps), k)
  {
    if steps != [] {
      var t, step := Run(s, steps[..|steps| - 1]), steps[|steps| - 1];
      StaysSettled(s, steps[..|steps| - 1], k);
      if Enabled(t, step) {
        StepKeepsInv(t, step);
      }
    }
  }

  lemma RunSnoc(s: State, steps: seq<Step>, t: State, step: Step)
    requires Run(s, steps) == t && Enabled(t, step)
    ensures Run(s, steps + [step]) == Apply(t, step)
  {
    assert (steps + [step])[..|steps|] == steps;
  }

  ghost predicate BlockedAfter(s: State, steps: seq<Step>, k: nat) {
    Blocked(Run(s, steps), k)
  }

  /** The next Start, and a worker that reads the quit field after it. */
  lemma LateReader(s: State, k: nat) returns (steps: seq<Step>)
    requires Inv(s) && !s.started && k < |s.workers| && (s.workers[k].Created? || s.workers[k].Spawned?)
    ensures BlockedAfter(s, steps, k)
  {
    var t := Apply(s, Start);
    RunSnoc(s, [], s, Start);
    steps := [] + [Start];
    if s.workers[k].Created? {
      assert WorkerInv(s, k);
      RunSnoc(s, steps, t, SpawnGenerator(k));
      steps := steps + [SpawnGenerator(k)];
      t := Apply(t, SpawnGenerator(k));
    }
    RunSnoc(s, steps, t, ReadQuit(k));
    steps := steps + [ReadQuit(k)];
  }

  /** A worker of a stopped miner can be blocked again, and its generator so outlive Stop, exactly
      when it has not read the quit field yet. */
  lemma LateReaderIff(s: State, k: nat)
    requires Inv(s) && !s.started && k < |s.workers|
    ensures (exists steps :: BlockedAfter(s, steps, k)) <==> s.workers[k].Created? || s.workers[k].Spawned?
  {
    if s.workers[k].Created? || s.workers[k].Spawned? {
      var steps := LateReader(s, k);
    } else {
      assert WorkerInv(s, k);
      assert Settled(s, k);
      forall steps ensures !BlockedAfter(s, steps, k) {
        StaysSettled(s, steps, k);
      }
    }
  }

  /** A stopped generator can outlive Stop: a worker that reads the quit field only after the
      next Start waits on the new channel, and both generators mine in the second session. */
  lemma LateReaderSurvivesStop()
    ensures var s := Run(INITIAL, [Start, SpawnGenerator(0), Stop, Start, ReadQuit(0), SpawnGenerator(1)]);
            s == State(true, [1, 0], [Waiting(1), Spawned], [Mining, Mining], [0, 0], 0) && Blocked(s, 0)
  {
    var s := State(true, [1, 0], [Spawned, Created], [Mining, NotSpawned], [0, 0], 0);
    var t := State(true, [1, 0], [Waiting(1), Created], [Mining, NotSpawned], [0, 0], 0);
    FirstSession();
    SecondStart();
    RunSnoc(INITIAL, [Start, SpawnGenerator(0), Stop, Start], s, ReadQuit(0));
    assert Apply(s, ReadQuit(0)) == t;
    assert [Start, SpawnGenerator(0), Stop, Start] + [ReadQuit(0)] == [Start, SpawnGenerator(0), Stop, Start, ReadQuit(0)];
    RunSnoc(INITIAL, [Start, SpawnGenerator(0), Stop, Start, ReadQuit(0)], t, SpawnGenerator(1));
    assert [Start, SpawnGenerator(0), Stop, Start, ReadQuit(0)] + [SpawnGenerator(1)]
        == [Start, SpawnGenerator(0), Stop, Start, ReadQuit(0), SpawnGenerator(1)];
  }

  lemma FirstSession()
    ensures Run(INITIAL, [Start, SpawnGenerator(0), Stop]) == State(false, [1], [Spawned], [Mining], [0], 0)
  {
    RunSnoc(INITIAL, [], INITIAL, Start);
    assert [] + [Start] == [Start];
    RunSnoc(INITIAL, [Start], State(true, [0], [Created], [NotSpawned], [0], 0), SpawnGenerator(0));
    assert [Start] + [SpawnGenerator(0)] == [Start, SpawnGenerator(0)];
    RunSnoc(INITIAL, [Start, SpawnGenerator(0)], State(true, [0], [Spawned], [Mining], [0], 0), Stop);
    assert [Start, SpawnGenerator(0)] + [Stop] == [Start, SpawnGenerator(0), Stop];
  }

  lemma SecondStart()
    ensures Run(INITIAL, [Start, SpawnGenerator(0), Stop, Start])
         == State(true, [1, 0], [Spawned, Created], [Mining, NotSpawned], [0, 0], 0)
  {
    FirstSession();
    RunSnoc(INITIAL, [Start, SpawnGenerator(0), Stop], State(false, [1], [Spawned], [Mining], [0], 0), Start);
    assert [Start, SpawnGenerator(0), Stop] + [Start] == [Start, SpawnGenerator(0), Stop, Start];
    assert [1] + [0] == [1, 0] && [Spawned] + [Created] == [Spawned, Created] && [Mining] + [NotSpawned] == [Mining, NotSpawned] && [0] + [0] == [0, 0];
  }

  /** The miner object's own methods: they change the state as the machine's Start and Stop. */
  class Miner {
    var started: bool
    var closes: seq<nat>
    var workers: seq<Worker>
    var generators: seq<Generator>
    var localCloses: seq<nat>
    var callbacks: nat

    constructor ()
      ensures Get() == INITIAL
    {
      started, closes, workers, generators, localCloses, callbacks := false, [], [], [], [], 0;
    }

    function Get(): State
      reads this
    {
      State(started, closes, workers, generators, localCloses, callbacks)
    }

    method Start()
      requires Inv(Get())
      modifies this
      ensures Inv(Get()) && Get() == Apply(old(Get()), Step.Start) && started
    {
      ghost var t := Apply(Get(), Step.Start);
      assert Inv(t) by { StepKeepsInv(Get(), Step.Start); }
      if started {
        return;
      }
      closes := closes + [0];
      workers, generators, localCloses := workers + [Created], generators + [NotSpawned], localCloses + [0];
      started := true;
      assert Get() == t;
    }

    method Stop()
      requires Inv(Get())
      modifies this
      ensures Inv(Get()) && Get() == Apply(old(Get()), Step.Stop) && !started
      ensures forall k: nat :: !Blocked(Get(), k)
    {
      StepKeepsInv(Get(), Step.Stop);
      if !started {
        return;
      }
      closes := closes[|closes| - 1 := closes[|closes| - 1] + 1];
      started := false;
    }
  }
}
