/** The job pool of the data availability indexer: jobs come from polling, from catching up and from retrying failed
    ones, run concurrently up to a limit, and are attempted three times before they are put aside. */
module Indexer {
  import opened Prelude

  /** A job stands for itself. */
  type Job = nat

  /** A job being processed: the delays it may still wait for, and the attempts that failed. */
  datatype Flight = Flight(job: Job, backoff: seq<nat>, failures: nat)

  const BACKOFF: seq<nat> := [5, 20]

  datatype Source = Poll | CatchUp | Retry

  /** What happened to a job: it was handed out for a pass, the pass succeeded, or it ended with that many failures. */
  datatype Event = HandOut(job: Job, source: Source) | Completion(job: Job) | Parking(job: Job, failures: nat)

  /** `poll`, `catchUp` and `retry` hold jobs not handed out yet; `fetched` and `log` record what happened. */
  datatype State = State(
    limit: nat,
    poll: seq<Job>,
    catchUp: seq<Job>,
    caughtUp: bool,
    retry: seq<Job>,
    inFlight: seq<Flight>,
    failed: set<Job>,
    fetched: set<Job>,
    log: seq<Event>)

  datatype Step =
    | PollFetch(jobs: Option<seq<Job>>)
    | CatchUpFetch(jobs: Option<seq<Job>>)
    | RetryDrain(order: seq<Job>)
    | Emit(source: Source)
    | Attempt(i: nat, ok: bool)

  function SetOf(jobs: seq<Job>): set<Job> {
    set i | 0 <= i < |jobs| :: jobs[i]
  }

  function Start(limit: nat): State {
    State(limit, [], [], false, [], [], {}, {}, [])
  }

  function Buffer(s: State, source: Source): seq<Job> {
    match source case Poll => s.poll case CatchUp => s.catchUp case Retry => s.retry
  }

  function Others(flights: seq<Flight>, i: nat): seq<Flight>
    requires i < |flights|
  {
    flights[..i] + flights[i + 1..]
  }

  /** Each source fetches again only when its last batch is used up. A limit of zero is no limit. Polled jobs go
      first. */
  predicate Enabled(s: State, step: Step) {
    match step
    case PollFetch(_) => s.poll == []
    case CatchUpFetch(_) => s.catchUp == [] && !s.caughtUp
    case RetryDrain(order) => s.retry == [] && SetOf(order) == s.failed && |order| == |s.failed|
    case Emit(source) =>
      && Buffer(s, source) != [] && (s.limit == 0 || |s.inFlight| < s.limit) && (source.Poll? || s.poll == [])
    case Attempt(i, _) => i < |s.inFlight|
  }

  function Next(s: State, step: Step): State
    requires Enabled(s, step)
  {
    match step
    case PollFetch(jobs) => if jobs.None? then s else s.(poll := jobs.value, fetched := s.fetched + SetOf(jobs.value))
    case CatchUpFetch(jobs) =>
      if jobs.None? then s
      else s.(catchUp := jobs.value, caughtUp := jobs.value == [], fetched := s.fetched + SetOf(jobs.value))
    case RetryDrain(order) => s.(retry := order, failed := {})
    case Emit(source) =>
      var job := Buffer(s, source)[0];
      var taken := s.(inFlight := s.inFlight + [Flight(job, BACKOFF, 0)], log := s.log + [HandOut(job, source)]);
      (match source
       case Poll => taken.(poll := s.poll[1..])
       case CatchUp => taken.(catchUp := s.catchUp[1..])
       case Retry => taken.(retry := s.retry[1..]))
    case Attempt(i, ok) =>
      var f := s.inFlight[i];
      var others := Others(s.inFlight, i);
      if ok then s.(inFlight := others, log := s.log + [Completion(f.job)])
      else if f.backoff != [] then s.(inFlight := s.inFlight[i := Flight(f.job, f.backoff[1..], f.failures + 1)])
      else s.(inFlight := others, failed := s.failed + {f.job}, log := s.log + [Parking(f.job, f.failures + 1)])
  }

  function Run(s: State, steps: seq<Step>): Option<State>
    decreases |steps|
  {
    if steps == [] then Some(s)
    else if Enabled(s, steps[0]) then Run(Next(s, steps[0]), steps[1..]) else None
  }

  // ---- counting ----

  function HandOuts(log: seq<Event>, j: Job): nat {
    if log == [] then 0
    else HandOuts(log[..|log| - 1], j) + if log[|log| - 1].HandOut? && log[|log| - 1].job == j then 1 else 0
  }

  function Completions(log: seq<Event>, j: Job): nat {
    if log == [] then 0
    else Completions(log[..|log| - 1], j) + if log[|log| - 1] == Completion(j) then 1 else 0
  }

  function Parkings(log: seq<Event>, j: Job): nat {
    if log == [] then 0
    else Parkings(log[..|log| - 1], j) + if log[|log| - 1].Parking? && log[|log| - 1].job == j then 1 else 0
  }

  /** What one more event does to the three counts. */
  lemma Logged(log: seq<Event>, e: Event, j: Job)
    ensures HandOuts(log + [e], j) == HandOuts(log, j) + if e.HandOut? && e.job == j then 1 else 0
    ensures Completions(log + [e], j) == Completions(log, j) + if e == Completion(j) then 1 else 0
    ensures Parkings(log + [e], j) == Parkings(log, j) + if e.Parking? && e.job == j then 1 else 0
  {
    assert (log + [e])[..|log|] == log;
  }

  /** How often a job is in flight. */
  function Flights(flights: seq<Flight>, j: Job): nat {
    if flights == [] then 0 else (if flights[0].job == j then 1 else 0) + Flights(flights[1..], j)
  }

  lemma {:induction false} FlightsMore(flights: seq<Flight>, f: Flight, j: Job)
    ensures Flights(flights + [f], j) == Flights(flights, j) + if f.job == j then 1 else 0
  {
    if flights == [] {
      assert flights + [f] == [f] && [f][1..] == [];
    } else {
      assert (flights + [f])[1..] == flights[1..] + [f];
      FlightsMore(flights[1..], f, j);
    }
  }

  lemma {:induction false} FlightsLess(flights: seq<Flight>, i: nat, j: Job)
    requires i < |flights|
    ensures Flights(Others(flights, i), j) == Flights(flights, j) - if flights[i].job == j then 1 else 0
  {
    if i == 0 {
      assert Others(flights, i) == flights[1..];
    } else {
      FlightsLess(flights[1..], i - 1, j);
      assert Others(flights, i)[0] == flights[0] && Others(flights, i)[1..] == Others(flights[1..], i - 1);
    }
  }

  lemma {:induction false} FlightsUpdated(flights: seq<Flight>, i: nat, f: Flight, j: Job)
    requires i < |flights| && f.job == flights[i].job
    ensures Flights(flights[i := f], j) == Flights(flights, j)
  {
    if i == 0 {
      assert flights[i := f][1..] == flights[1..];
    } else {
      assert flights[i := f][1..] == flights[1..][i - 1 := f];
      FlightsUpdated(flights[1..], i - 1, f, j);
    }
  }

  // ---- what every step keeps ----

  /** Every hand-out of a job has ended in a completion or a parking, or is in flight: none is lost, pass by pass. */
  ghost predicate Balanced(s: State, j: Job) {
    HandOuts(s.log, j) == Completions(s.log, j) + Flights(s.inFlight, j) + Parkings(s.log, j)
  }

  /** A job handed out is completed, in flight, put aside or waiting to be handed out again; only a job put aside is
      retried; and a job fetched is handed out or waits for it. */
  ghost predicate Accounted(s: State, j: Job) {
    && (HandOuts(s.log, j) > 0
        ==> Completions(s.log, j) > 0 || Flights(s.inFlight, j) > 0 || j in s.failed || j in s.retry)
    && (j in s.failed || j in s.retry ==> Parkings(s.log, j) > 0)
    && (j in s.fetched <==> HandOuts(s.log, j) > 0 || j in s.poll || j in s.catchUp)
  }

  /** A job put aside is in `failed` or waits to be handed out again, or has been since. */
  ghost predicate Followed(s: State, k: nat)
    requires k < |s.log|
  {
    || s.log[k].job in s.failed || s.log[k].job in s.retry
    || exists m :: k < m < |s.log| && s.log[m] == HandOut(s.log[k].job, Retry)
  }

  /** Jobs are put aside after exactly three failures in one pass, and none of them is forgotten. */
  ghost predicate ParkingsOk(s: State) {
    forall k :: 0 <= k < |s.log| && s.log[k].Parking? ==> s.log[k].failures == 3 && Followed(s, k)
  }

  ghost predicate Limited(s: State) {
    (s.limit > 0 ==> |s.inFlight| <= s.limit) && (s.caughtUp ==> s.catchUp == [])
  }

  /** A flight has failed once for every delay it has used. */
  ghost predicate FlightOk(f: Flight) {
    f.failures <= 2 && f.backoff == BACKOFF[f.failures..]
  }

  ghost predicate FlightsOk(flights: seq<Flight>) {
    forall i :: 0 <= i < |flights| ==> FlightOk(flights[i])
  }

  ghost predicate JobOk(s: State, j: Job) {
    Balanced(s, j) && Accounted(s, j)
  }

  ghost predicate Inv(s: State) {
    (forall j :: JobOk(s, j)) && ParkingsOk(s) && Limited(s) && FlightsOk(s.inFlight)
  }

  /** Parkings stay followed when jobs only leave `failed` and `retry` for a retry that is logged. */
  lemma FollowedMore(s: State, t: State, e: Event, k: nat)
    requires k < |s.log| && t.log == s.log + [e] && Followed(s, k)
    requires forall j :: j in s.failed || j in s.retry ==> j in t.failed || j in t.retry || e == HandOut(j, Retry)
    ensures Followed(t, k)
  {
    var j := s.log[k].job;
    assert t.log[k] == s.log[k] && t.log[|s.log|] == e;
    if m :| k < m < |s.log| && s.log[m] == HandOut(j, Retry) {
      assert t.log[m] == s.log[m];
    }
  }

  lemma ParkingsMore(s: State, t: State, e: Event)
    requires ParkingsOk(s) && t.log == s.log + [e]
    requires forall j :: j in s.failed || j in s.retry ==> j in t.failed || j in t.retry || e == HandOut(j, Retry)
    requires e.Parking? ==> e.failures == 3 && e.job in t.failed
    ensures ParkingsOk(t)
  {
    forall k | 0 <= k < |t.log| && t.log[k].Parking? ensures t.log[k].failures == 3 && Followed(t, k) {
      if k < |s.log| {
        assert t.log[k] == s.log[k];
        FollowedMore(s, t, e, k);
      }
    }
  }

  lemma SameLog(s: State, t: State)
    requires ParkingsOk(s) && t.log == s.log
    requires forall j :: j in s.failed || j in s.retry ==> j in t.failed || j in t.retry
    ensures ParkingsOk(t)
  {
    forall k | 0 <= k < |t.log| && t.log[k].Parking? ensures t.log[k].failures == 3 && Followed(t, k) {
      assert Followed(s, k);
    }
  }

  lemma Taken(jobs: seq<Job>, j: Job)
    requires jobs != []
    ensures j in jobs <==> j == jobs[0] || j in jobs[1..]
  {
    assert jobs == [jobs[0]] + jobs[1..];
  }

  lemma EmitJob(s: State, source: Source, j: Job)
    requires Enabled(s, Emit(source)) && JobOk(s, j)
    ensures JobOk(Next(s, Emit(source)), j)
  {
    var buffer := Buffer(s, source);
    Taken(buffer, j);
    Logged(s.log, HandOut(buffer[0], source), j);
    FlightsMore(s.inFlight, Flight(buffer[0], BACKOFF, 0), j);
  }

  lemma EmitInv(s: State, source: Source)
    requires Inv(s) && Enabled(s, Emit(source))
    ensures Inv(Next(s, Emit(source)))
  {
    var t := Next(s, Emit(source));
    var buffer := Buffer(s, source);
    forall j ensures JobOk(t, j) {
      EmitJob(s, source, j);
    }
    forall j ensures j in buffer <==> j == buffer[0] || j in buffer[1..] {
      Taken(buffer, j);
    }
    ParkingsMore(s, t, HandOut(buffer[0], source));
  }

  /** `t` is `s` after flight `i` has ended with event `e`. */
  ghost predicate Ends(s: State, i: nat, t: State, e: Event) {
    && i < |s.inFlight| && !e.HandOut? && e.job == s.inFlight[i].job
    && t == s.(inFlight := Others(s.inFlight, i), log := s.log + [e],
               failed := if e.Parking? then s.failed + {e.job} else s.failed)
  }

  lemma EndJob(s: State, i: nat, t: State, e: Event, j: Job)
    requires Ends(s, i, t, e) && JobOk(s, j)
    ensures JobOk(t, j)
  {
    Logged(s.log, e, j);
    FlightsLess(s.inFlight, i, j);
  }

  lemma EndInv(s: State, i: nat, t: State, e: Event)
    requires Inv(s) && Ends(s, i, t, e) && (e.Parking? ==> e.failures == 3)
    ensures Inv(t)
  {
    forall j ensures JobOk(t, j) {
      EndJob(s, i, t, e, j);
    }
    ParkingsMore(s, t, e);
  }

  /** An attempt that fails with a delay left. */
  lemma AgainInv(s: State, i: nat, t: State, f: Flight)
    requires Inv(s) && i < |s.inFlight| && f.job == s.inFlight[i].job && FlightOk(f)
    requires t == s.(inFlight := s.inFlight[i := f])
    ensures Inv(t)
  {
    forall j ensures JobOk(t, j) {
      assert JobOk(s, j);
      FlightsUpdated(s.inFlight, i, f, j);
    }
    SameLog(s, t);
  }

  lemma AttemptInv(s: State, i: nat, ok: bool)
    requires Inv(s) && Enabled(s, Attempt(i, ok))
    ensures Inv(Next(s, Attempt(i, ok)))
  {
    var t := Next(s, Attempt(i, ok));
    var f := s.inFlight[i];
    assert FlightOk(f);
    if ok {
      EndInv(s, i, t, Completion(f.job));
    } else if f.backoff == [] {
      EndInv(s, i, t, Parking(f.job, f.failures + 1));
    } else {
      AgainInv(s, i, t, Flight(f.job, f.backoff[1..], f.failures + 1));
    }
  }

  lemma DrainInv(s: State, order: seq<Job>)
    requires Inv(s) && Enabled(s, RetryDrain(order))
    ensures Inv(Next(s, RetryDrain(order)))
  {
    var t := Next(s, RetryDrain(order));
    forall j ensures j in order <==> j in s.failed {
      assert j in order <==> j in SetOf(order);
    }
    forall j ensures JobOk(t, j) {
      assert JobOk(s, j);
    }
    SameLog(s, t);
  }

  lemma PollInv(s: State, t: State, jobs: seq<Job>)
    requires Inv(s) && s.poll == [] && t == s.(poll := jobs, fetched := s.fetched + SetOf(jobs))
    ensures Inv(t)
  {
    forall j ensures JobOk(t, j) {
      assert JobOk(s, j);
      assert j in SetOf(jobs) <==> j in jobs;
    }
    SameLog(s, t);
  }

  lemma CatchUpInv(s: State, t: State, jobs: seq<Job>)
    requires Inv(s) && s.catchUp == []
    requires t == s.(catchUp := jobs, caughtUp := jobs == [], fetched := s.fetched + SetOf(jobs))
    ensures Inv(t)
  {
    forall j ensures JobOk(t, j) {
      assert JobOk(s, j);
      assert j in SetOf(jobs) <==> j in jobs;
    }
    SameLog(s, t);
  }

  lemma StepInv(s: State, step: Step)
    requires Inv(s) && Enabled(s, step)
    ensures Inv(Next(s, step))
  {
    match step
    case PollFetch(jobs) =>
      if jobs.Some? {
        PollInv(s, Next(s, step), jobs.value);
      }
    case CatchUpFetch(jobs) =>
      if jobs.Some? {
        CatchUpInv(s, Next(s, step), jobs.value);
      }
    case RetryDrain(order) => DrainInv(s, order);
    case Emit(source) => EmitInv(s, source);
    case Attempt(i, ok) => AttemptInv(s, i, ok);
  }

  lemma {:induction false} RunInv(s: State, steps: seq<Step>)
    requires Inv(s) && Run(s, steps).Some?
    ensures Inv(Run(s, steps).value)
    decreases |steps|
  {
    if steps != [] {
      StepInv(s, steps[0]);
      RunInv(Next(s, steps[0]), steps[1..]);
    }
  }

  lemma StartInv(limit: nat)
    ensures Inv(Start(limit))
  {
    forall j ensures JobOk(Start(limit), j) {
    }
  }

  /** Over every run: each job fetched is handed out or waits for it; its hand-outs are as many as its completions, its
      flights and its parkings together; a job is put aside only after exactly three failed attempts in one pass, and is
      then handed out again or still waits for it; and a positive limit is respected. */
  lemma AlwaysAccounted(limit: nat, steps: seq<Step>)
    requires Run(Start(limit), steps).Some?
    ensures Inv(Run(Start(limit), steps).value)
  {
    StartInv(limit);
    RunInv(Start(limit), steps);
  }

  // ---- nothing is ever stuck ----

  function Work(s: State): nat {
    |s.inFlight| + 2 * (|s.poll| + |s.catchUp| + |s.retry|) + 3 * |s.failed|
  }

  lemma {:induction false} Ordered(jobs: set<Job>) returns (order: seq<Job>)
    ensures SetOf(order) == jobs && |order| == |jobs|
  {
    if jobs == {} {
      order := [];
    } else {
      var j :| j in jobs;
      var rest := Ordered(jobs - {j});
      order := [j] + rest;
      SetOfMore(j, rest);
    }
  }

  lemma SetOfMore(j: Job, rest: seq<Job>)
    ensures SetOf([j] + rest) == {j} + SetOf(rest)
  {
    var all := [j] + rest;
    forall x ensures x in SetOf(all) <==> x == j || x in SetOf(rest) {
      Taken(all, x);
      assert all[1..] == rest;
      assert x in SetOf(all) <==> x in all;
      assert x in SetOf(rest) <==> x in rest;
    }
  }

  /** A step that brings the pool closer to having nothing left to do, if every attempt succeeds from here on. */
  lemma Advance(s: State) returns (step: Step)
    requires Work(s) > 0
    ensures Enabled(s, step) && !step.PollFetch? && !step.CatchUpFetch?
    ensures Work(Next(s, step)) < Work(s) && s.fetched <= Next(s, step).fetched
  {
    if s.inFlight != [] {
      step := Attempt(0, true);
    } else if s.poll != [] {
      step := Emit(Poll);
    } else if s.catchUp != [] {
      step := Emit(CatchUp);
    } else if s.retry != [] {
      step := Emit(Retry);
    } else {
      var order := Ordered(s.failed);
      step := RetryDrain(order);
    }
  }

  lemma Settled(s: State)
    requires Inv(s) && Work(s) == 0
    ensures forall j :: j in s.fetched ==> Completions(s.log, j) > 0
  {
    forall j | j in s.fetched ensures Completions(s.log, j) > 0 {
      assert JobOk(s, j);
    }
  }

  /** From every reachable state there is a way, with no new jobs fetched, to have every job fetched so far
      completed: none is lost and none is stuck. */
  lemma {:induction false} CanSettle(s: State) returns (steps: seq<Step>)
    requires Inv(s)
    ensures Run(s, steps).Some?
    ensures forall j :: j in s.fetched ==> Completions(Run(s, steps).value.log, j) > 0
    ensures forall i :: 0 <= i < |steps| ==> !steps[i].PollFetch? && !steps[i].CatchUpFetch?
    decreases Work(s)
  {
    if Work(s) == 0 {
      steps := [];
      Settled(s);
    } else {
      var step := Advance(s);
      StepInv(s, step);
      var rest := CanSettle(Next(s, step));
      steps := [step] + rest;
      assert steps[1..] == rest;
    }
  }

  // ---- one pass over a job ----

  class Pool {
    var failedJobs: set<Job>

    constructor ()
      ensures failedJobs == {}
    {
      failedJobs := {};
    }

    /** Attempts a job until it succeeds or the delays are used up; `succeeds` tells the outcome of each attempt, and
        `waited` sums the delays. */
    method ProcessJobWithRetries(job: Job, succeeds: nat -> bool) returns (attempts: nat, waited: nat)
      modifies this
      ensures 1 <= attempts <= 3 && forall k :: 0 <= k < attempts - 1 ==> !succeeds(k)
      ensures succeeds(attempts - 1) ==> failedJobs == old(failedJobs)
      ensures !succeeds(attempts - 1) ==> attempts == 3 && failedJobs == old(failedJobs) + {job}
      ensures waited == if attempts == 1 then 0 else if attempts == 2 then 5 else 25
    {
      var backoff := BACKOFF;
      attempts, waited := 1, 0;
      while !succeeds(attempts - 1)
        invariant 1 <= attempts <= 3 && backoff == BACKOFF[attempts - 1..] && failedJobs == old(failedJobs)
        invariant forall k :: 0 <= k < attempts - 1 ==> !succeeds(k)
        invariant waited == if attempts == 1 then 0 else if attempts == 2 then 5 else 25
        decreases |backoff|
      {
        if backoff == [] {
          failedJobs := failedJobs + {job};
          return;
        }
        waited := waited + backoff[0];
        backoff := backoff[1..];
        attempts := attempts + 1;
      }
    }

    /** Empties the set into a batch to hand out again. */
    method DrainFailedJobs() returns (batch: seq<Job>)
      modifies this
      ensures failedJobs == {} && SetOf(batch) == old(failedJobs) && |batch| == |old(failedJobs)|
    {
      batch := [];
      while failedJobs != {}
        invariant SetOf(batch) + failedJobs == old(failedJobs) && |batch| + |failedJobs| == |old(failedJobs)|
        decreases |failedJobs|
      {
        var j :| j in failedJobs;
        SetOfMore(j, batch);
        batch := [j] + batch;
        failedJobs := failedJobs - {j};
      }
    }
  }
}
