/** In which order the job pool hands out the jobs of its three sources, and when catching up ends. */
module IndexerOrder {
  import opened Prelude
  import opened Indexer

  /** The jobs a source has handed out, in order. */
  function HandedFrom(log: seq<Event>, source: Source): seq<Job> {
    if log == [] then []
    else
      var last := log[|log| - 1];
      HandedFrom(log[..|log| - 1], source) + if last.HandOut? && last.source == source then [last.job] else []
  }

  /** The batch that a step brings a source. */
  function BatchOf(step: Step, source: Source): seq<Job> {
    match step
    case PollFetch(jobs) => if source.Poll? && jobs.Some? then jobs.value else []
    case CatchUpFetch(jobs) => if source.CatchUp? && jobs.Some? then jobs.value else []
    case RetryDrain(order) => if source.Retry? then order else []
    case Emit(_) => []
    case Attempt(_, _) => []
  }

  function Batches(steps: seq<Step>, source: Source): seq<Job> {
    if steps == [] then [] else BatchOf(steps[0], source) + Batches(steps[1..], source)
  }

  lemma HandedMore(log: seq<Event>, e: Event, source: Source)
    ensures HandedFrom(log + [e], source)
            == HandedFrom(log, source) + if e.HandOut? && e.source == source then [e.job] else []
  {
    assert (log + [e])[..|log|] == log;
  }

  lemma EmitShape(s: State, origin: Source, source: Source)
    requires Enabled(s, Emit(origin))
    ensures Next(s, Emit(origin)).log == s.log + [HandOut(Buffer(s, origin)[0], origin)]
    ensures Buffer(Next(s, Emit(origin)), source)
            == if source == origin then Buffer(s, origin)[1..] else Buffer(s, source)
  {
  }

  lemma Moved(handed: seq<Job>, buffer: seq<Job>)
    requires buffer != []
    ensures handed + [buffer[0]] + buffer[1..] == handed + buffer
  {
  }

  lemma EmitInOrder(s: State, origin: Source, source: Source)
    requires Enabled(s, Emit(origin))
    ensures var t := Next(s, Emit(origin));
            HandedFrom(t.log, source) + Buffer(t, source) == HandedFrom(s.log, source) + Buffer(s, source)
  {
    EmitShape(s, origin, source);
    HandedMore(s.log, HandOut(Buffer(s, origin)[0], origin), source);
    Moved(HandedFrom(s.log, source), Buffer(s, origin));
    assert HandedFrom(s.log, source) + [] == HandedFrom(s.log, source);
  }

  lemma AttemptInOrder(s: State, i: nat, ok: bool, source: Source)
    requires Enabled(s, Attempt(i, ok))
    ensures var t := Next(s, Attempt(i, ok));
            HandedFrom(t.log, source) == HandedFrom(s.log, source) && Buffer(t, source) == Buffer(s, source)
  {
    var f := s.inFlight[i];
    HandedMore(s.log, Completion(f.job), source);
    HandedMore(s.log, Parking(f.job, f.failures + 1), source);
  }

  lemma StepInOrder(s: State, step: Step, source: Source)
    requires Enabled(s, step)
    ensures HandedFrom(Next(s, step).log, source) + Buffer(Next(s, step), source)
            == HandedFrom(s.log, source) + Buffer(s, source) + BatchOf(step, source)
  {
    match step
    case PollFetch(_) =>
    case CatchUpFetch(_) =>
    case RetryDrain(_) =>
    case Emit(origin) => EmitInOrder(s, origin, source);
    case Attempt(i, ok) => AttemptInOrder(s, i, ok, source);
  }

  lemma {:induction false} RunInOrder(s: State, steps: seq<Step>, source: Source)
    requires Run(s, steps).Some?
    ensures var t := Run(s, steps).value;
            HandedFrom(t.log, source) + Buffer(t, source)
            == HandedFrom(s.log, source) + Buffer(s, source) + Batches(steps, source)
    decreases |steps|
  {
    if steps != [] {
      StepInOrder(s, steps[0], source);
      RunInOrder(Next(s, steps[0]), steps[1..], source);
    }
  }

  /** Over every run each source hands out its jobs in the order in which its batches brought them, none left out and
      none twice; those it has not handed out yet follow. */
  lemma HandedInOrder(limit: nat, steps: seq<Step>, source: Source)
    requires Run(Start(limit), steps).Some?
    ensures var s := Run(Start(limit), steps).value;
            HandedFrom(s.log, source) + (match source case Poll => s.poll case CatchUp => s.catchUp case Retry => s.retry)
            == Batches(steps, source)
  {
    RunInOrder(Start(limit), steps, source);
    assert [] + [] + Batches(steps, source) == Batches(steps, source);
  }

  lemma {:induction false} RunPrefix(s: State, steps: seq<Step>, i: nat)
    requires Run(s, steps).Some? && i < |steps|
    ensures Run(s, steps[..i]).Some? && Enabled(Run(s, steps[..i]).value, steps[i])
    decreases |steps|
  {
    if i > 0 {
      RunPrefix(Next(s, steps[0]), steps[1..], i - 1);
      assert steps[..i][1..] == steps[1..][..i - 1];
    }
  }

  /** A job of another source is handed out only when no polled job waits, and a positive limit leaves room for it. */
  lemma PolledFirst(limit: nat, steps: seq<Step>, i: nat)
    requires Run(Start(limit), steps).Some? && i < |steps| && steps[i].Emit?
    ensures Run(Start(limit), steps[..i]).Some?
    ensures var s := Run(Start(limit), steps[..i]).value;
            && (steps[i].source != Poll ==> s.poll == [])
            && (limit > 0 ==> |s.inFlight| < limit)
  {
    RunPrefix(Start(limit), steps, i);
    LimitStays(Start(limit), steps[..i]);
  }

  lemma {:induction false} LimitStays(s: State, steps: seq<Step>)
    requires Run(s, steps).Some?
    ensures Run(s, steps).value.limit == s.limit
    decreases |steps|
  {
    if steps != [] {
      LimitStays(Next(s, steps[0]), steps[1..]);
    }
  }

  lemma {:induction false} CaughtUp(s: State, steps: seq<Step>)
    requires Run(s, steps).Some?
    ensures Run(s, steps).value.caughtUp <==> s.caughtUp || CatchUpFetch(Some([])) in steps
    ensures s.caughtUp ==> forall i :: 0 <= i < |steps| ==> !steps[i].CatchUpFetch?
    decreases |steps|
  {
    if steps != [] {
      CaughtUp(Next(s, steps[0]), steps[1..]);
      assert steps == [steps[0]] + steps[1..];
      if s.caughtUp {
        forall i | 0 <= i < |steps| ensures !steps[i].CatchUpFetch? {
          assert i > 0 ==> steps[i] == steps[1..][i - 1];
        }
      }
    }
  }

  /** Catching up ends with the first empty batch, and with nothing else: no batch of it is fetched after one, and until
      then one can be fetched whenever its jobs are handed out. */
  lemma CatchUpEnds(limit: nat, before: seq<Step>, after: seq<Step>, jobs: Option<seq<Job>>)
    requires Run(Start(limit), before).Some?
    ensures Enabled(Run(Start(limit), before).value, CatchUpFetch(jobs))
            <==> Run(Start(limit), before).value.catchUp == [] && CatchUpFetch(Some([])) !in before
    ensures Run(Run(Start(limit), before).value, after).Some? && CatchUpFetch(Some([])) in before
            ==> forall i :: 0 <= i < |after| ==> !after[i].CatchUpFetch?
  {
    CaughtUp(Start(limit), before);
    if Run(Run(Start(limit), before).value, after).Some? {
      CaughtUp(Run(Start(limit), before).value, after);
    }
  }

  // ---- serving and failing ----

  /** Whenever the polled jobs are handed out another batch can be polled, and its jobs completed with all the rest. */
  lemma CanServe(s: State, jobs: seq<Job>) returns (steps: seq<Step>)
    requires Inv(s) && s.poll == []
    ensures steps != [] && steps[0] == PollFetch(Some(jobs)) && Run(s, steps).Some?
    ensures forall j :: j in jobs || j in s.fetched ==> Completions(Run(s, steps).value.log, j) > 0
  {
    var first := PollFetch(Some(jobs));
    StepInv(s, first);
    var rest := CanSettle(Next(s, first));
    steps := [first] + rest;
    assert steps[1..] == rest;
    forall j | j in jobs ensures j in Next(s, first).fetched {
      assert j in SetOf(jobs);
    }
  }

  /** The first two failures of a flight leave it in flight, with the delays that remain. */
  lemma FailTwice(s: State, i: nat, job: Job, again: Step)
    requires i < |s.inFlight| && s.inFlight[i] == Flight(job, [5, 20], 0) && again == Attempt(i, false)
    ensures Run(s, [again, again]) == Some(s.(inFlight := s.inFlight[i := Flight(job, [], 2)]))
  {
    var one := Next(s, again);
    assert [5, 20][1..] == [20] && [20][1..] == [];
    assert one == s.(inFlight := s.inFlight[i := Flight(job, [20], 1)]);
    assert s.inFlight[i := Flight(job, [20], 1)][i := Flight(job, [], 2)] == s.inFlight[i := Flight(job, [], 2)];
    assert [again, again][1..] == [again] && [again][1..] == [];
    assert Run(one, [again]) == Run(Next(one, again), []);
  }

  /** A job can fail: a third failed attempt puts it aside, and changes nothing else. */
  lemma CanFail(s: State, i: nat, job: Job, again: Step)
    requires Inv(s) && i < |s.inFlight| && s.inFlight[i].job == job && s.inFlight[i].failures == 0
    requires again == Attempt(i, false)
    ensures Run(s, [again, again, again])
            == Some(s.(inFlight := s.inFlight[..i] + s.inFlight[i + 1..], failed := s.failed + {job},
                       log := s.log + [Parking(job, 3)]))
  {
    assert FlightOk(s.inFlight[i]);
    FailTwice(s, i, job, again);
    var two := Run(s, [again, again]).value;
    RunOneMore(s, [again, again], again);
    assert [again, again] + [again] == [again, again, again];
    assert Others(two.inFlight, i) == s.inFlight[..i] + s.inFlight[i + 1..];
  }

  lemma {:induction false} RunOneMore(s: State, steps: seq<Step>, step: Step)
    requires Run(s, steps).Some? && Enabled(Run(s, steps).value, step)
    ensures Run(s, steps + [step]) == Some(Next(Run(s, steps).value, step))
    decreases |steps|
  {
    if steps == [] {
      assert steps + [step] == [step] && [step][1..] == [];
      assert Run(s, [step]) == Run(Next(s, step), []);
    } else {
      assert (steps + [step])[0] == steps[0] && (steps + [step])[1..] == steps[1..] + [step];
      RunOneMore(Next(s, steps[0]), steps[1..], step);
    }
  }
}
