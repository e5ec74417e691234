/** `Collector.Collect` as a step relation: a dispatcher, any number of worker goroutines, an
    unbuffered channel of modules, a wait group and a cancellable context.  One `Step` is one
    visible action of one goroutine; every interleaving of steps is a run. */
module WorkerPool {

  /** Where a worker goroutine is. */
  datatype Phase =
    | Starting                            // wg.Add done, client not ready yet
    | ClientFailed                        // no client: context cancelled, error still to be sent
    | ConnectFailed                       // no connection: error still to be sent, context not cancelled yet
    | Cancelling                          // no connection: error sent, about to cancel
    | Waiting                             // receiving from the channel of modules
    | Scraping(job: nat, left: nat)       // in collect, with `left` metrics still to be sent
    | Finishing                           // past its last send, deferred wg.Done still to run
    | Exited

  datatype Main = Spawning | Dispatching | Closing | Joining | Returned

  /** The configured concurrency, and for every module how many metrics its scrape sends. */
  datatype Config = Config(concurrency: int, samples: seq<nat>)

  datatype State = State(
    main: Main,
    workers: seq<Phase>,
    waitGroup: int,
    cancelled: bool,
    closed: bool,
    handed: seq<nat>,       // handed[k] is the worker that received the k-th module
    emitted: seq<nat>,      // metrics sent so far, per module
    completed: seq<nat>)    // finished scrapes, per module

  datatype Step =
    | Spawn | StartDispatch | Send(w: nat) | SeeCancelled | Exhausted | Close | Return
    | Ready(w: nat) | ClientFail(w: nat) | EngineIdFail(w: nat) | ConnectFail(w: nat)
    | ReportClient(w: nat) | ReportConnect(w: nat) | CancelAfterReport(w: nat)
    | Emit(w: nat) | ScrapeDone(w: nat) | ChannelClosed(w: nat) | Done(w: nat)
    | ParentCancel

  function WorkerCount(c: Config): (n: nat)
    ensures n >= 1
  {
    if c.concurrency > 1 then c.concurrency else 1
  }

  function Init(c: Config): State {
    var zeros := seq(|c.samples|, _ => 0);
    State(Spawning, [], 0, false, false, [], zeros, zeros)
  }

  predicate At(s: State, w: nat, p: Phase) { w < |s.workers| && s.workers[w] == p }

  predicate IsScraping(s: State, w: nat) { w < |s.workers| && s.workers[w].Scraping? }

  predicate Enabled(c: Config, s: State, step: Step) {
    match step
    case Spawn => s.main == Spawning && |s.workers| < WorkerCount(c)
    case StartDispatch => s.main == Spawning && |s.workers| == WorkerCount(c)
    // The two arms of the select; a send needs a worker at its receive.
    case Send(w) => s.main == Dispatching && |s.handed| < |c.samples| && At(s, w, Waiting)
    case SeeCancelled => s.main == Dispatching && |s.handed| < |c.samples| && s.cancelled
    case Exhausted => s.main == Dispatching && |s.handed| == |c.samples|
    case Close => s.main == Closing
    case Return => s.main == Joining && s.waitGroup == 0
    case Ready(w) => At(s, w, Starting)
    case ClientFail(w) => At(s, w, Starting)
    case EngineIdFail(w) => At(s, w, Starting)
    case ConnectFail(w) => At(s, w, Starting)
    case ReportClient(w) => At(s, w, ClientFailed)
    case ReportConnect(w) => At(s, w, ConnectFailed)
    case CancelAfterReport(w) => At(s, w, Cancelling)
    case Emit(w) => IsScraping(s, w) && s.workers[w].left > 0 && s.workers[w].job < |s.emitted|
    case ScrapeDone(w) => IsScraping(s, w) && s.workers[w].left == 0 && s.workers[w].job < |s.completed|
    case ChannelClosed(w) => At(s, w, Waiting) && s.closed
    case Done(w) => At(s, w, Finishing)
    case ParentCancel => !s.cancelled && s.main != Returned
  }

  function Move(s: State, w: nat, p: Phase): State
    requires w < |s.workers|
  {
    s.(workers := s.workers[w := p])
  }

  function Do(c: Config, s: State, step: Step): State
    requires Enabled(c, s, step)
  {
    match step
    case Spawn => s.(workers := s.workers + [Starting], waitGroup := s.waitGroup + 1)
    case StartDispatch => s.(main := Dispatching)
    case Send(w) => Move(s, w, Scraping(|s.handed|, c.samples[|s.handed|])).(handed := s.handed + [w])
    case SeeCancelled => s.(main := Closing)
    case Exhausted => s.(main := Closing)
    case Close => s.(main := Joining, closed := true)
    case Return => s.(main := Returned)
    case Ready(w) => Move(s, w, Waiting)
    case ClientFail(w) => Move(s, w, ClientFailed).(cancelled := true)
    case EngineIdFail(w) => Move(s, w, Finishing).(cancelled := true)
    case ConnectFail(w) => Move(s, w, ConnectFailed)
    case ReportClient(w) => Move(s, w, Finishing)
    case ReportConnect(w) => Move(s, w, Cancelling)
    case CancelAfterReport(w) => Move(s, w, Finishing).(cancelled := true)
    case Emit(w) =>
      var p := s.workers[w];
      Move(s, w, p.(left := p.left - 1)).(emitted := s.emitted[p.job := s.emitted[p.job] + 1])
    case ScrapeDone(w) =>
      var p := s.workers[w];
      Move(s, w, Waiting).(completed := s.completed[p.job := s.completed[p.job] + 1])
    case ChannelClosed(w) => Move(s, w, Finishing)
    case Done(w) => Move(s, w, Exited).(waitGroup := s.waitGroup - 1)
    case ParentCancel => s.(cancelled := true)
  }

  /** A run from the start of Collect; `steps[i]` leads from `states[i]` to `states[i + 1]`. */
  ghost predicate IsRun(c: Config, states: seq<State>, steps: seq<Step>) {
    && |states| == |steps| + 1
    && states[0] == Init(c)
    && forall i :: 0 <= i < |steps| ==> Enabled(c, states[i], steps[i]) && states[i + 1] == Do(c, states[i], steps[i])
  }

  // ---------------------------------------------------------------- what every step keeps

  /** Workers that have not run wg.Done yet. */
  function Live(ws: seq<Phase>): nat {
    if ws == [] then 0 else Live(ws[..|ws| - 1]) + (if ws[|ws| - 1] == Exited then 0 else 1)
  }

  predicate Counters(c: Config, s: State) {
    && s.waitGroup == Live(s.workers)
    && |s.workers| <= WorkerCount(c)
    && (s.main != Spawning ==> |s.workers| == WorkerCount(c))
    && (s.closed <==> s.main == Joining || s.main == Returned)
    && (s.main == Returned ==> s.waitGroup == 0)
  }

  /** Nobody gives up quietly: a worker past its loop without a closed channel has cancelled the context,
      and dispatching stops early only when it is cancelled. */
  ghost predicate GivesUpLoudly(c: Config, s: State) {
    && (forall w :: 0 <= w < |s.workers| && (s.workers[w] == Finishing || s.workers[w] == Exited) ==>
          s.cancelled || s.closed)
    && (forall w :: 0 <= w < |s.workers| && s.workers[w] == ClientFailed ==> s.cancelled)
    && (s.main != Spawning && s.main != Dispatching && |s.handed| < |c.samples| ==> s.cancelled)
    && (s.main == Spawning ==> s.handed == [])
  }

  /** The book-keeping of modules: the k-th module went to worker handed[k], who is scraping it or has finished it
      once. */
  ghost predicate JobsAccounted(c: Config, s: State) {
    var n := |c.samples|;
    && |s.handed| <= n == |s.emitted| == |s.completed|
    && (forall k :: |s.handed| <= k < n ==> s.emitted[k] == 0 && s.completed[k] == 0)
    && (forall k :: 0 <= k < |s.handed| ==> JobState(c, s, k))
    && (forall w :: 0 <= w < |s.workers| && s.workers[w].Scraping? ==>
          var k := s.workers[w].job;
          k < |s.handed| && s.handed[k] == w && s.completed[k] == 0)
  }

  ghost predicate JobState(c: Config, s: State, k: nat)
    requires k < |s.handed| <= |c.samples| == |s.emitted| == |s.completed|
  {
    && s.handed[k] < |s.workers|
    && s.completed[k] <= 1
    && (s.completed[k] == 1 ==> s.emitted[k] == c.samples[k])
    && (s.completed[k] == 0 ==>
          var p := s.workers[s.handed[k]];
          p.Scraping? && p.job == k && s.emitted[k] + p.left == c.samples[k])
  }

  ghost predicate Inv(c: Config, s: State) {
    Counters(c, s) && GivesUpLoudly(c, s) && JobsAccounted(c, s)
  }

  lemma {:induction false} LiveUpdate(ws: seq<Phase>, w: nat, p: Phase)
    requires w < |ws|
    ensures Live(ws[w := p]) == Live(ws) - (if ws[w] == Exited then 0 else 1) + (if p == Exited then 0 else 1)
  {
    var last := |ws| - 1;
    if w < last {
      LiveUpdate(ws[..last], w, p);
      assert ws[w := p][..last] == ws[..last][w := p];
    } else {
      assert ws[w := p][..last] == ws[..last];
    }
  }

  lemma LiveAppend(ws: seq<Phase>)
    ensures Live(ws + [Starting]) == Live(ws) + 1
  {}

  lemma InitHolds(c: Config)
    ensures Inv(c, Init(c))
  {}

  /** The worker a step moves, if it moves one. */
  function Mover(step: Step): int {
    match step
    case Spawn | StartDispatch | SeeCancelled | Exhausted | Close | Return | ParentCancel => -1
    case _ => step.w
  }

  lemma StepKeepsCounters(c: Config, s: State, step: Step)
    requires Inv(c, s) && Enabled(c, s, step)
    ensures Counters(c, Do(c, s, step))
  {
    if step == Spawn {
      LiveAppend(s.workers);
    } else if Mover(step) >= 0 {
      LiveUpdate(s.workers, step.w, Do(c, s, step).workers[step.w]);
    }
  }

  lemma StepKeepsLoudness(c: Config, s: State, step: Step)
    requires Inv(c, s) && Enabled(c, s, step)
    ensures GivesUpLoudly(c, Do(c, s, step))
  {}

  lemma SendKeepsJobs(c: Config, s: State, w: nat)
    requires Inv(c, s) && Enabled(c, s, Send(w))
    ensures JobsAccounted(c, Do(c, s, Send(w)))
  {
    var t := Do(c, s, Send(w));
    forall k | 0 <= k < |t.handed| ensures JobState(c, t, k) {
      if k < |s.handed| { assert JobState(c, s, k); }
    }
  }

  lemma EmitKeepsJobs(c: Config, s: State, w: nat)
    requires Inv(c, s) && Enabled(c, s, Emit(w))
    ensures JobsAccounted(c, Do(c, s, Emit(w)))
  {
    var t := Do(c, s, Emit(w));
    forall k | 0 <= k < |t.handed| ensures JobState(c, t, k) { assert JobState(c, s, k); }
  }

  lemma ScrapeDoneKeepsJobs(c: Config, s: State, w: nat)
    requires Inv(c, s) && Enabled(c, s, ScrapeDone(w))
    ensures JobsAccounted(c, Do(c, s, ScrapeDone(w)))
  {
    var t := Do(c, s, ScrapeDone(w));
    forall k | 0 <= k < |t.handed| ensures JobState(c, t, k) { assert JobState(c, s, k); }
  }

  lemma OtherStepKeepsJobs(c: Config, s: State, step: Step)
    requires Inv(c, s) && Enabled(c, s, step) && !step.Send? && !step.Emit? && !step.ScrapeDone?
    ensures JobsAccounted(c, Do(c, s, step))
  {
    var t := Do(c, s, step);
    assert t.handed == s.handed && t.emitted == s.emitted && t.completed == s.completed;
    forall k | 0 <= k < |t.handed| ensures JobState(c, t, k) { assert JobState(c, s, k); }
  }

  lemma StepKeepsInv(c: Config, s: State, step: Step)
    requires Inv(c, s) && Enabled(c, s, step)
    ensures Inv(c, Do(c, s, step))
  {
    hide Do, Enabled, Counters, GivesUpLoudly, JobsAccounted;
    StepKeepsCounters(c, s, step);
    StepKeepsLoudness(c, s, step);
    match step
    case Send(w) => SendKeepsJobs(c, s, w);
    case Emit(w) => EmitKeepsJobs(c, s, w);
    case ScrapeDone(w) => ScrapeDoneKeepsJobs(c, s, w);
    case _ => OtherStepKeepsJobs(c, s, step);
  }

  lemma {:induction false} RunKeepsInv(c: Config, states: seq<State>, steps: seq<Step>, i: nat)
    requires IsRun(c, states, steps) && i < |states|
    ensures Inv(c, states[i])
  {
    hide Do, Enabled, Inv;
    if i == 0 {
      InitHolds(c);
    } else {
      RunKeepsInv(c, states, steps, i - 1);
      StepKeepsInv(c, states[i - 1], steps[i - 1]);
    }
  }

  // ---------------------------------------------------------------- when Collect returns

  lemma {:induction false} NoneLive(ws: seq<Phase>, w: nat)
    requires Live(ws) == 0 && w < |ws|
    ensures ws[w] == Exited
  {
    if w < |ws| - 1 {
      NoneLive(ws[..|ws| - 1], w);
    }
  }

  /** When Collect returns every worker is gone, so nothing can be sent any more; every module handed out has been
      scraped to the end by the one worker that received it; the others were not touched; and without a cancellation
      there are no others. */
  lemma ReturnedMeansDone(c: Config, states: seq<State>, steps: seq<Step>)
    requires IsRun(c, states, steps) && states[|steps|].main == Returned
    ensures var s := states[|steps|];
            && (forall w :: 0 <= w < |s.workers| ==> s.workers[w] == Exited)
            && (forall step :: !Enabled(c, s, step))
            && |s.handed| <= |c.samples| == |s.completed| == |s.emitted|
            && (forall k :: 0 <= k < |c.samples| ==>
                  && s.completed[k] == (if k < |s.handed| then 1 else 0)
                  && s.emitted[k] == (if k < |s.handed| then c.samples[k] else 0))
            && (!s.cancelled ==> |s.handed| == |c.samples|)
  {
    var s := states[|steps|];
    RunKeepsInv(c, states, steps, |steps|);
    forall w | 0 <= w < |s.workers| ensures s.workers[w] == Exited { NoneLive(s.workers, w); }
    forall k | 0 <= k < |c.samples|
      ensures s.completed[k] == (if k < |s.handed| then 1 else 0)
      ensures s.emitted[k] == (if k < |s.handed| then c.samples[k] else 0)
    {
      if k < |s.handed| { assert JobState(c, s, k); }
    }
  }

  /** s can become t: nothing handed out is taken back or reordered, and no counter goes down. */
  ghost predicate OnlyAdds(s: State, t: State) {
    && s.handed <= t.handed
    && |s.completed| == |t.completed| && |s.emitted| == |t.emitted|
    && (forall k :: 0 <= k < |s.completed| ==> s.completed[k] <= t.completed[k])
    && (forall k :: 0 <= k < |s.emitted| ==> s.emitted[k] <= t.emitted[k])
    && (s.cancelled ==> t.cancelled) && (s.closed ==> t.closed)
  }

  lemma StepOnlyAdds(c: Config, s: State, step: Step)
    requires Enabled(c, s, step)
    ensures OnlyAdds(s, Do(c, s, step))
  {}

  lemma {:induction false} RunOnlyAdds(c: Config, states: seq<State>, steps: seq<Step>, i: nat, j: nat)
    requires IsRun(c, states, steps) && i <= j < |states|
    ensures OnlyAdds(states[i], states[j])
    decreases j - i
  {
    hide Do, Enabled;
    if i < j {
      RunOnlyAdds(c, states, steps, i, j - 1);
      StepOnlyAdds(c, states[j - 1], steps[j - 1]);
    }
  }

  // ---------------------------------------------------------------- progress and termination

  /** A program step that can be taken now: never a parent's cancellation, which nobody can count on. */
  function EnabledStep(c: Config, s: State): (step: Step) {
    if s.main == Spawning then (if |s.workers| < WorkerCount(c) then Spawn else StartDispatch)
    else if s.main == Closing then Close
    else if s.main == Dispatching && |s.handed| == |c.samples| then Exhausted
    else if s.main == Dispatching && s.cancelled then SeeCancelled
    else if s.main == Joining && s.waitGroup == 0 then Return
    else
      var w := Busy(s.workers, 0);
      if w == |s.workers| then Return
      else match s.workers[w]
        case Starting => Ready(w)
        case ClientFailed => ReportClient(w)
        case ConnectFailed => ReportConnect(w)
        case Cancelling => CancelAfterReport(w)
        case Waiting => if s.closed then ChannelClosed(w) else Send(w)
        case Scraping(_, left) => if left > 0 then Emit(w) else ScrapeDone(w)
        case Finishing => Done(w)
        case Exited => Return
  }

  /** The first worker from w on that has not exited. */
  function Busy(ws: seq<Phase>, w: nat): (r: nat)
    requires w <= |ws|
    ensures w <= r <= |ws|
    ensures r < |ws| ==> ws[r] != Exited
    ensures forall i :: w <= i < r ==> ws[i] == Exited
    decreases |ws| - w
  {
    if w == |ws| || ws[w] != Exited then w else Busy(ws, w + 1)
  }

  lemma {:induction false} AllExitedNoneLive(ws: seq<Phase>)
    requires forall w :: 0 <= w < |ws| ==> ws[w] == Exited
    ensures Live(ws) == 0
  {
    if ws != [] {
      AllExitedNoneLive(ws[..|ws| - 1]);
    }
  }

  /** No deadlock: until Collect has returned, some goroutine can move without outside help. */
  lemma NoDeadlock(c: Config, s: State)
    requires Inv(c, s) && s.main != Returned
    ensures EnabledStep(c, s) != ParentCancel && Enabled(c, s, EnabledStep(c, s))
  {
    var w := Busy(s.workers, 0);
    if w == |s.workers| {
      AllExitedNoneLive(s.workers);
      if s.main == Dispatching {
        assert s.workers[0] == Exited;
      }
    } else {
      var p := s.workers[w];
      if p.Scraping? {
        assert JobState(c, s, p.job);
      }
    }
  }

  function PhaseRank(p: Phase): nat {
    match p
    case Starting => 6
    case Scraping(_, left) => 5 + left
    case Waiting => 4
    case ConnectFailed => 3
    case ClientFailed => 2
    case Cancelling => 2
    case Finishing => 1
    case Exited => 0
  }

  function WorkersRank(ws: seq<Phase>): nat {
    if ws == [] then 0 else WorkersRank(ws[..|ws| - 1]) + PhaseRank(ws[|ws| - 1])
  }

  /** Work in modules not handed out yet. */
  function JobsRank(samples: seq<nat>, from: nat): nat
    requires from <= |samples|
    decreases |samples| - from
  {
    if from == |samples| then 0 else samples[from] + 2 + JobsRank(samples, from + 1)
  }

  function MainRank(m: Main): nat {
    match m
    case Spawning => 4
    case Dispatching => 3
    case Closing => 2
    case Joining => 1
    case Returned => 0
  }

  /** Everything that can still happen. */
  function Measure(c: Config, s: State): nat
    requires |s.workers| <= WorkerCount(c) && |s.handed| <= |c.samples|
  {
    7 * (WorkerCount(c) - |s.workers|) + WorkersRank(s.workers) + JobsRank(c.samples, |s.handed|)
    + MainRank(s.main) + (if s.cancelled then 0 else 1)
  }

  lemma {:induction false} WorkersRankUpdate(ws: seq<Phase>, w: nat, p: Phase)
    requires w < |ws|
    ensures WorkersRank(ws[w := p]) == WorkersRank(ws) - PhaseRank(ws[w]) + PhaseRank(p)
  {
    var last := |ws| - 1;
    if w < last {
      WorkersRankUpdate(ws[..last], w, p);
      assert ws[w := p][..last] == ws[..last][w := p];
    } else {
      assert ws[w := p][..last] == ws[..last];
    }
  }

  lemma DispatcherStepDecreases(c: Config, s: State, step: Step)
    requires Inv(c, s) && Enabled(c, s, step) && Mover(step) < 0
    requires Inv(c, Do(c, s, step))
    ensures Measure(c, Do(c, s, step)) < Measure(c, s)
  {}

  lemma WorkerStepDecreases(c: Config, s: State, step: Step)
    requires Inv(c, s) && Enabled(c, s, step) && Mover(step) >= 0
    requires Inv(c, Do(c, s, step))
    ensures Measure(c, Do(c, s, step)) < Measure(c, s)
  {
    hide Inv;
    var t := Do(c, s, step);
    WorkersRankUpdate(s.workers, step.w, t.workers[step.w]);
    assert t.workers == s.workers[step.w := t.workers[step.w]];
  }

  lemma StepDecreases(c: Config, s: State, step: Step)
    requires Inv(c, s) && Enabled(c, s, step)
    ensures Inv(c, Do(c, s, step)) && Measure(c, Do(c, s, step)) < Measure(c, s)
  {
    StepKeepsInv(c, s, step);
    hide Do, Enabled, Measure;
    if Mover(step) < 0 {
      DispatcherStepDecreases(c, s, step);
    } else {
      WorkerStepDecreases(c, s, step);
    }
  }

  lemma {:induction false} RunUsesMeasure(c: Config, states: seq<State>, steps: seq<Step>, i: nat)
    requires IsRun(c, states, steps) && i < |states|
    ensures Inv(c, states[i]) && i + Measure(c, states[i]) <= Measure(c, Init(c))
  {
    hide Do, Enabled, Measure;
    RunKeepsInv(c, states, steps, i);
    if i > 0 {
      RunUsesMeasure(c, states, steps, i - 1);
      StepDecreases(c, states[i - 1], steps[i - 1]);
    }
  }

  /** Every run ends: its length has a bound fixed by the configuration, and it can only stop where Collect has
      returned. */
  lemma EveryRunReturns(c: Config, states: seq<State>, steps: seq<Step>)
    requires IsRun(c, states, steps)
    ensures |steps| <= Measure(c, Init(c))
    ensures (forall step :: step != ParentCancel ==> !Enabled(c, states[|steps|],
            step)) ==> states[|steps|].main == Returned
  {
    RunUsesMeasure(c, states, steps, |steps|);
    if states[|steps|].main != Returned {
      NoDeadlock(c, states[|steps|]);
    }
  }

  /** Wherever a run stands, it can be continued by program steps alone until Collect returns. */
  lemma RunCanFinish(c: Config, states: seq<State>, steps: seq<Step>) returns (all: seq<State>, more: seq<Step>)
    requires IsRun(c, states, steps)
    ensures IsRun(c, all, more) && states <= all && steps <= more
    ensures forall i :: |steps| <= i < |more| ==> more[i] != ParentCancel
    ensures all[|more|].main == Returned
    decreases Measure(c, Init(c)) - |steps|
  {
    hide Do, Enabled, Measure, EnabledStep;
    var s := states[|steps|];
    RunUsesMeasure(c, states, steps, |steps|);
    if s.main == Returned {
      return states, steps;
    }
    NoDeadlock(c, s);
    var step := EnabledStep(c, s);
    StepDecreases(c, s, step);
    all, more := RunCanFinish(c, states + [Do(c, s, step)], steps + [step]);
    assert (steps + [step])[|steps|] == step;
  }
}
