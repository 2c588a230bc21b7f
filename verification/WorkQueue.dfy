/** Workers that share a table of contract addresses: each claims a waiting row, processes it and records the
    outcome, until no row can be claimed. */
module WorkQueue {
  import opened Prelude

  type Address = Bytes

  datatype Status = Waiting | InProcess | Success | Error

  type Table = map<Address, Status>

  /** Where a worker stands. `Locking` is inside the claiming statement, which has locked a row and not yet
      committed; `Claimed` has the address and still loads the row. */
  datatype Phase = Ready | Locking(a: Address) | Claimed(a: Address) | Working(a: Address) | Done | Failed

  datatype Worker = Worker(phase: Phase, processed: nat)

  /** `claims` lists the addresses claimed so far, in order. */
  datatype State = State(status: Table, workers: seq<Worker>, claims: seq<Address>)

  datatype Step =
    | Lock(w: nat, a: Address)
    | Claim(w: nat)
    | Begin(w: nat)
    | Finish(w: nat, verified: bool)
    | Exhaust(w: nat)
    | Fail(w: nat)

  predicate IsWaiting(t: Table, a: Address) {
    a in t && t[a].Waiting?
  }

  function WaitingRows(t: Table): set<Address> {
    set a | a in t && t[a].Waiting?
  }

  predicate Locked(workers: seq<Worker>, a: Address) {
    exists w :: 0 <= w < |workers| && workers[w].phase == Locking(a)
  }

  // ---- steps ----

  /** A locked row is passed over, so a worker gives up only when every waiting row is locked. */
  predicate Enabled(s: State, step: Step) {
    && step.w < |s.workers|
    && var phase := s.workers[step.w].phase;
      match step
      case Lock(_, a) => phase.Ready? && IsWaiting(s.status, a) && !Locked(s.workers, a)
      case Claim(_) => phase.Locking?
      case Begin(_) => phase.Claimed?
      case Finish(_, _) => phase.Working?
      case Exhaust(_) => phase.Ready? && forall a :: a in s.status && s.status[a].Waiting? ==> Locked(s.workers, a)
      case Fail(_) => !phase.Done? && !phase.Failed?
  }

  function Next(s: State, step: Step): State
    requires Enabled(s, step)
  {
    var worker := s.workers[step.w];
    match step
    case Lock(w, a) => s.(workers := s.workers[w := worker.(phase := Locking(a))])
    case Claim(w) =>
      var a := worker.phase.a;
      State(s.status[a := InProcess], s.workers[w := worker.(phase := Claimed(a))], s.claims + [a])
    case Begin(w) =>
      s.(workers := s.workers[w := Worker(Working(worker.phase.a), worker.processed + 1)])
    case Finish(w, verified) =>
      s.(status := s.status[worker.phase.a := if verified then Success else Error],
         workers := s.workers[w := worker.(phase := Ready)])
    case Exhaust(w) => s.(workers := s.workers[w := worker.(phase := Done)])
    case Fail(w) => s.(workers := s.workers[w := worker.(phase := Failed)])
  }

  /** `n` workers that have done nothing yet. */
  function Start(t: Table, n: nat): State {
    State(t, seq(n, _ => Worker(Ready, 0)), [])
  }

  function Run(s: State, steps: seq<Step>): Option<State> {
    if steps == [] then Some(s)
    else match Run(s, steps[..|steps| - 1])
      case None => None
      case Some(before) =>
        if Enabled(before, steps[|steps| - 1]) then Some(Next(before, steps[|steps| - 1])) else None
  }

  // ---- what every step keeps ----

  predicate Owns(worker: Worker, a: Address) {
    (worker.phase.Claimed? || worker.phase.Working?) && worker.phase.a == a
  }

  predicate Holds(worker: Worker, a: Address) {
    worker.phase == Locking(a) || Owns(worker, a)
  }

  /** A row is as it was at the start until it is claimed; only waiting rows are. */
  predicate RowOk(was: Status, now: Status, claimed: bool) {
    if claimed then was.Waiting? && !now.Waiting? else now == was
  }

  ghost predicate Rows(start: Table, s: State) {
    s.status.Keys == start.Keys && forall a :: a in start ==> RowOk(start[a], s.status[a], a in s.claims)
  }

  ghost predicate ClaimedOnce(start: Table, claims: seq<Address>) {
    && (forall i :: 0 <= i < |claims| ==> claims[i] in start)
    && (forall i, j :: 0 <= i < j < |claims| ==> claims[i] != claims[j])
  }

  ghost predicate Held(s: State) {
    forall w, a :: 0 <= w < |s.workers| && Holds(s.workers[w], a) ==>
      a in s.status && s.status[a] == if Owns(s.workers[w], a) then InProcess else Waiting
  }

  ghost predicate OwnedAreClaimed(s: State) {
    forall w, a :: 0 <= w < |s.workers| && Owns(s.workers[w], a) ==> a in s.claims
  }

  /** No two workers hold the same address. */
  ghost predicate Apart(workers: seq<Worker>) {
    forall v, w, a :: 0 <= v < w < |workers| && Holds(workers[v], a) ==> !Holds(workers[w], a)
  }

  ghost predicate Safe(start: Table, s: State) {
    Rows(start, s) && ClaimedOnce(start, s.claims) && Held(s) && OwnedAreClaimed(s) && Apart(s.workers)
  }

  lemma StartSafe(t: Table, n: nat)
    ensures Safe(t, Start(t, n))
  {
  }

  lemma LockSafe(start: Table, s: State, w: nat, a: Address)
    requires Safe(start, s) && Enabled(s, Lock(w, a))
    ensures Safe(start, Next(s, Lock(w, a)))
  {
    forall v | 0 <= v < |s.workers| ensures !Holds(s.workers[v], a) {
      assert s.workers[v].phase != Locking(a);
    }
  }

  lemma ClaimSafe(start: Table, s: State, w: nat)
    requires Safe(start, s) && Enabled(s, Claim(w))
    ensures Safe(start, Next(s, Claim(w)))
  {
    var t := Next(s, Claim(w));
    var a := s.workers[w].phase.a;
    assert Holds(s.workers[w], a);
    assert a !in s.claims;
    assert forall b :: b in t.claims <==> b in s.claims || b == a;
    forall v | 0 <= v < |s.workers| && v != w ensures !Holds(s.workers[v], a) {
      assert Apart(s.workers);
    }
    forall v, b | 0 <= v < |t.workers| && Holds(t.workers[v], b)
      ensures b in t.status && t.status[b] == if Owns(t.workers[v], b) then InProcess else Waiting
    {
      if v != w {
        assert Holds(s.workers[v], b);
      }
    }
  }

  lemma OwnedStepSafe(start: Table, s: State, w: nat, step: Step)
    requires Safe(start, s) && Enabled(s, step) && step.w == w && (step.Begin? || step.Finish?)
    ensures Safe(start, Next(s, step))
  {
    var t := Next(s, step);
    var a := s.workers[w].phase.a;
    assert Owns(s.workers[w], a) && Holds(s.workers[w], a);
    assert a in s.claims && s.status[a] == InProcess;
    forall v | 0 <= v < |s.workers| && v != w ensures !Holds(s.workers[v], a) {
      assert Apart(s.workers);
    }
    forall v, b | 0 <= v < |t.workers| && Holds(t.workers[v], b)
      ensures b in t.status && t.status[b] == if Owns(t.workers[v], b) then InProcess else Waiting
    {
      if v != w {
        assert Holds(s.workers[v], b);
      }
    }
    forall u, v, b | 0 <= u < v < |t.workers| && Holds(t.workers[u], b) ensures !Holds(t.workers[v], b) {
      assert u != w ==> Holds(s.workers[u], b);
    }
  }

  lemma StepSafe(start: Table, s: State, step: Step)
    requires Safe(start, s) && Enabled(s, step)
    ensures Safe(start, Next(s, step))
  {
    match step
    case Lock(w, a) => LockSafe(start, s, w, a);
    case Claim(w) => ClaimSafe(start, s, w);
    case Begin(w) => OwnedStepSafe(start, s, w, step);
    case Finish(w, _) => OwnedStepSafe(start, s, w, step);
    case Exhaust(_) =>
    case Fail(_) =>
  }

  /** Over every interleaving no two workers hold an address, a held row is in process (or still waiting, inside
      the claiming statement), and each row is claimed at most once, and only if it was waiting. */
  lemma {:induction false} AlwaysSafe(t: Table, n: nat, steps: seq<Step>)
    requires Run(Start(t, n), steps).Some?
    ensures Safe(t, Run(Start(t, n), steps).value)
  {
    if steps == [] {
      StartSafe(t, n);
    } else {
      var k := |steps| - 1;
      AlwaysSafe(t, n, steps[..k]);
      StepSafe(t, Run(Start(t, n), steps[..k]).value, steps[k]);
    }
  }

  // ---- finality ----

  lemma StepKeepsFinal(start: Table, s: State, step: Step, a: Address)
    requires Safe(start, s) && Enabled(s, step) && a in s.status && (s.status[a].Success? || s.status[a].Error?)
    ensures a in Next(s, step).status && Next(s, step).status[a] == s.status[a]
  {
    if step.Claim? || step.Finish? {
      assert Holds(s.workers[step.w], s.workers[step.w].phase.a);
    }
  }

  /** Success and error are final: no continuation of a run changes such a row. */
  lemma {:induction false} OutcomeIsFinal(t: Table, n: nat, before: seq<Step>, after: seq<Step>, a: Address)
    requires Run(Start(t, n), before).Some? && Run(Start(t, n), before + after).Some?
    requires var s := Run(Start(t, n), before).value; a in s.status && (s.status[a].Success? || s.status[a].Error?)
    ensures a in Run(Start(t, n), before + after).value.status
    ensures Run(Start(t, n), before + after).value.status[a] == Run(Start(t, n), before).value.status[a]
    decreases |after|
  {
    if after == [] {
      assert before + after == before;
    } else {
      var k := |after| - 1;
      var all := before + after;
      assert all[..|all| - 1] == before + after[..k] && all[|all| - 1] == after[k];
      OutcomeIsFinal(t, n, before, after[..k], a);
      AlwaysSafe(t, n, before + after[..k]);
      StepKeepsFinal(t, Run(Start(t, n), before + after[..k]).value, after[k], a);
    }
  }

  // ---- completion ----

  ghost predicate NoneFailed(workers: seq<Worker>) {
    forall w :: 0 <= w < |workers| ==> !workers[w].phase.Failed?
  }

  ghost predicate AllDone(workers: seq<Worker>) {
    forall w :: 0 <= w < |workers| ==> workers[w].phase.Done?
  }

  ghost predicate SomeDone(workers: seq<Worker>) {
    exists w :: 0 <= w < |workers| && workers[w].phase.Done?
  }

  ghost predicate Owned(workers: seq<Worker>, a: Address) {
    exists w :: 0 <= w < |workers| && Owns(workers[w], a)
  }

  /** A claimed row in process has its worker. */
  ghost predicate Attended(s: State) {
    forall a :: a in s.claims && a in s.status && s.status[a].InProcess? ==> Owned(s.workers, a)
  }

  /** Once a worker has given up, every waiting row is being claimed. */
  ghost predicate Drained(s: State) {
    SomeDone(s.workers) ==> forall a :: IsWaiting(s.status, a) ==> Locked(s.workers, a)
  }

  function Total(workers: seq<Worker>, f: Worker -> nat): nat {
    if workers == [] then 0 else f(workers[0]) + Total(workers[1..], f)
  }

  lemma {:induction false} TotalUpdate(workers: seq<Worker>, f: Worker -> nat, w: nat, x: Worker)
    requires w < |workers|
    ensures Total(workers[w := x], f) == Total(workers, f) - f(workers[w]) + f(x)
  {
    if w == 0 {
      assert workers[w := x][1..] == workers[1..];
    } else {
      assert workers[w := x][1..] == workers[1..][w - 1 := x];
      TotalUpdate(workers[1..], f, w - 1, x);
    }
  }

  /** The claims a worker accounts for: those it has counted, and one it is still loading. */
  function Counted(x: Worker): nat {
    x.processed + if x.phase.Claimed? then 1 else 0
  }

  ghost predicate Live(s: State) {
    Attended(s) && Drained(s) && Total(s.workers, Counted) == |s.claims|
  }

  lemma {:induction false} TotalZero(workers: seq<Worker>)
    requires forall w :: 0 <= w < |workers| ==> workers[w] == Worker(Ready, 0)
    ensures Total(workers, Counted) == 0
  {
    if workers != [] {
      TotalZero(workers[1..]);
    }
  }

  lemma StillOwned(workers: seq<Worker>, w: nat, x: Worker, a: Address)
    requires w < |workers| && Owned(workers, a) && (Owns(workers[w], a) ==> Owns(x, a))
    ensures Owned(workers[w := x], a)
  {
    var v :| 0 <= v < |workers| && Owns(workers[v], a);
    assert Owns(workers[w := x][v], a);
  }

  lemma StillLocked(workers: seq<Worker>, w: nat, x: Worker, a: Address)
    requires w < |workers| && Locked(workers, a) && workers[w].phase != Locking(a)
    ensures Locked(workers[w := x], a)
  {
    var v :| 0 <= v < |workers| && workers[v].phase == Locking(a);
    assert workers[w := x][v].phase == Locking(a);
  }

  lemma StepAttended(start: Table, s: State, step: Step)
    requires Safe(start, s) && Attended(s) && Enabled(s, step) && !step.Fail?
    ensures Attended(Next(s, step))
  {
    var t := Next(s, step);
    forall a | a in t.claims && a in t.status && t.status[a].InProcess? ensures Owned(t.workers, a) {
      if step.Claim? && a == s.workers[step.w].phase.a {
        assert Owns(t.workers[step.w], a);
      } else {
        StillOwned(s.workers, step.w, t.workers[step.w], a);
      }
    }
  }

  lemma StepDrained(start: Table, s: State, step: Step)
    requires Safe(start, s) && Drained(s) && Enabled(s, step) && !step.Fail?
    ensures Drained(Next(s, step))
  {
    var t := Next(s, step);
    if SomeDone(t.workers) {
      if !step.Exhaust? {
        var v :| 0 <= v < |t.workers| && t.workers[v].phase.Done?;
        assert s.workers[v].phase.Done?;
      }
      forall a | IsWaiting(t.status, a) ensures Locked(t.workers, a) {
        assert IsWaiting(s.status, a);
        StillLocked(s.workers, step.w, t.workers[step.w], a);
      }
    }
  }

  lemma StepCounted(s: State, step: Step)
    requires Enabled(s, step) && !step.Fail? && Total(s.workers, Counted) == |s.claims|
    ensures Total(Next(s, step).workers, Counted) == |Next(s, step).claims|
  {
    TotalUpdate(s.workers, Counted, step.w, Next(s, step).workers[step.w]);
  }

  lemma {:induction false} AlwaysLive(t: Table, n: nat, steps: seq<Step>)
    requires Run(Start(t, n), steps).Some? && NoneFailed(Run(Start(t, n), steps).value.workers)
    ensures Live(Run(Start(t, n), steps).value)
  {
    if steps == [] {
      TotalZero(Start(t, n).workers);
    } else {
      var k := |steps| - 1;
      var s, step := Run(Start(t, n), steps[..k]).value, steps[k];
      assert NoneFailed(s.workers) && !step.Fail? by {
        var after := Next(s, step).workers;
        assert !after[step.w].phase.Failed?;
        forall w | 0 <= w < |s.workers| ensures !s.workers[w].phase.Failed? {
          assert !after[w].phase.Failed?;
        }
      }
      AlwaysLive(t, n, steps[..k]);
      AlwaysSafe(t, n, steps[..k]);
      StepAttended(t, s, step);
      StepDrained(t, s, step);
      StepCounted(s, step);
    }
  }

  function Processed(x: Worker): nat {
    x.processed
  }

  lemma {:induction false} DoneTotals(workers: seq<Worker>)
    requires AllDone(workers)
    ensures Total(workers, Counted) == Total(workers, Processed)
  {
    if workers != [] {
      assert workers[0].phase.Done?;
      assert AllDone(workers[1..]) by {
        forall w | 0 <= w < |workers[1..]| ensures workers[1..][w].phase.Done? {
          assert workers[w + 1].phase.Done?;
        }
      }
      DoneTotals(workers[1..]);
    }
  }

  lemma {:induction false} DistinctSize(claims: seq<Address>, rows: set<Address>)
    requires forall i, j :: 0 <= i < j < |claims| ==> claims[i] != claims[j]
    requires forall a :: a in claims <==> a in rows
    ensures |claims| == |rows|
  {
    if claims != [] {
      var k := |claims| - 1;
      assert claims == claims[..k] + [claims[k]];
      DistinctSize(claims[..k], rows - {claims[k]});
    } else {
      assert rows == {};
    }
  }

  /** The outcome when every worker of a run has returned normally. */
  ghost predicate Completed(t: Table, s: State) {
    && s.status.Keys == t.Keys
    && (forall a :: a in t ==>
          if t[a].Waiting? then s.status[a].Success? || s.status[a].Error? else s.status[a] == t[a])
    && (forall a :: a in s.claims <==> a in WaitingRows(t))
    && ClaimedOnce(t, s.claims)
    && Total(s.workers, Processed) == |WaitingRows(t)|
  }

  /** When all workers have returned normally, whatever the interleaving, every row that was waiting has been claimed
      exactly once and has its outcome, every other row is as it was, and the workers' counts add up to the number
      of rows that were waiting. */
  lemma AllRowsProcessed(t: Table, n: nat, steps: seq<Step>)
    requires n > 0 && Run(Start(t, n), steps).Some? && AllDone(Run(Start(t, n), steps).value.workers)
    ensures Completed(t, Run(Start(t, n), steps).value)
  {
    var s := Run(Start(t, n), steps).value;
    AlwaysSafe(t, n, steps);
    AlwaysLive(t, n, steps);
    WorkersStay(t, n, steps);
    assert s.workers[0].phase.Done?;
    forall a | a in t ensures RowOk(t[a], s.status[a], a in s.claims)
                      ensures t[a].Waiting? ==> a in s.claims
                      ensures t[a].Waiting? ==> s.status[a].Success? || s.status[a].Error?
    {
      assert !Locked(s.workers, a) && !Owned(s.workers, a);
      assert !IsWaiting(s.status, a);
    }
    DistinctSize(s.claims, WaitingRows(t));
    DoneTotals(s.workers);
  }

  lemma {:induction false} WorkersStay(t: Table, n: nat, steps: seq<Step>)
    requires Run(Start(t, n), steps).Some?
    ensures |Run(Start(t, n), steps).value.workers| == n
  {
    if steps != [] {
      WorkersStay(t, n, steps[..|steps| - 1]);
    }
  }

  // ---- outcomes ----

  /** What the step that finished a row, if there was one, found. */
  function FinishedAs(s: State, steps: seq<Step>, a: Address): Option<bool> {
    if steps == [] then None
    else
      var k := |steps| - 1;
      var before, last := Run(s, steps[..k]), steps[k];
      if before.Some? && last.Finish? && last.w < |before.value.workers|
         && before.value.workers[last.w].phase == Working(a)
      then Some(last.verified) else FinishedAs(s, steps[..k], a)
  }

  /** In every run a claimed row is a success iff its processing verified it, an error iff it did not, and in process
      iff it is not finished. */
  lemma {:induction false} OutcomeRecorded(t: Table, n: nat, steps: seq<Step>, a: Address)
    requires Run(Start(t, n), steps).Some? && a in Run(Start(t, n), steps).value.claims
    ensures a in Run(Start(t, n), steps).value.status
    ensures Run(Start(t, n), steps).value.status[a]
            == match FinishedAs(Start(t, n), steps, a)
               case None => InProcess
               case Some(verified) => if verified then Success else Error
  {
    var k := |steps| - 1;
    var s, step := Run(Start(t, n), steps[..k]).value, steps[k];
    AlwaysSafe(t, n, steps[..k]);
    if a in s.claims {
      OutcomeRecorded(t, n, steps[..k], a);
      OutcomeStep(t, s, step, a);
    } else {
      NotFinished(t, n, steps[..k], a);
      assert a in t by {
        AlwaysSafe(t, n, steps);
      }
    }
  }

  lemma OutcomeStep(start: Table, s: State, step: Step, a: Address)
    requires Safe(start, s) && Enabled(s, step) && a in s.claims
    ensures a in s.status && a in Next(s, step).status
    ensures Next(s, step).status[a]
            == if step.Finish? && s.workers[step.w].phase == Working(a) then (if step.verified then Success else Error)
               else s.status[a]
  {
    var i :| 0 <= i < |s.claims| && s.claims[i] == a;
    assert a in start;
    if step.Claim? {
      assert Holds(s.workers[step.w], s.workers[step.w].phase.a);
    }
  }

  lemma {:induction false} NotFinished(t: Table, n: nat, steps: seq<Step>, a: Address)
    requires Run(Start(t, n), steps).Some? && a !in Run(Start(t, n), steps).value.claims
    ensures FinishedAs(Start(t, n), steps, a).None?
  {
    if steps != [] {
      var k := |steps| - 1;
      var s := Run(Start(t, n), steps[..k]).value;
      AlwaysSafe(t, n, steps[..k]);
      assert a !in s.claims;
      NotFinished(t, n, steps[..k], a);
      if steps[k].Finish? && s.workers[steps[k].w].phase == Working(a) {
        assert Owns(s.workers[steps[k].w], a);
      }
    }
  }

  // ---- reset ----

  /** Rows in process go back to waiting, and no other row changes. */
  function Reset(t: Table): (r: Table)
    ensures r.Keys == t.Keys
    ensures forall a :: a in t && t[a].InProcess? ==> r[a].Waiting?
    ensures forall a :: a in t && !t[a].InProcess? ==> r[a] == t[a]
  {
    map a | a in t :: if t[a].InProcess? then Waiting else t[a]
  }

  /** After a reset and a run whose workers all return normally, whatever an earlier run left behind: a row that was
      waiting or in process before the reset has been claimed exactly once, and is a success if its processing verified
      it and an error if it did not; a row that had an outcome has kept it and was not claimed; and the workers' counts
      add up to the rows that were waiting or in process. */
  lemma ResetThenComplete(t: Table, n: nat, steps: seq<Step>)
    requires n > 0 && Run(Start(Reset(t), n), steps).Some? && AllDone(Run(Start(Reset(t), n), steps).value.workers)
    ensures var s := Run(Start(Reset(t), n), steps).value;
            && s.status.Keys == t.Keys
            && (forall a :: a in t && (t[a].Waiting? || t[a].InProcess?) ==>
                  && multiset(s.claims)[a] == 1
                  && var outcome := FinishedAs(Start(Reset(t), n), steps, a);
                     outcome.Some? && s.status[a] == if outcome.value then Success else Error)
            && (forall a :: a in t && (t[a].Success? || t[a].Error?) ==>
                  multiset(s.claims)[a] == 0 && s.status[a] == t[a])
            && Total(s.workers, Processed) == |set a | a in t && (t[a].Waiting? || t[a].InProcess?)|
  {
    var s := Run(Start(Reset(t), n), steps).value;
    AllRowsProcessed(Reset(t), n, steps);
    assert WaitingRows(Reset(t)) == set a | a in t && (t[a].Waiting? || t[a].InProcess?);
    forall a | a in t && (t[a].Waiting? || t[a].InProcess?)
      ensures multiset(s.claims)[a] == 1
      ensures var outcome := FinishedAs(Start(Reset(t), n), steps, a);
              outcome.Some? && s.status[a] == if outcome.value then Success else Error
    {
      assert a in WaitingRows(Reset(t));
      OccursOnce(s.claims, a);
      OutcomeRecorded(Reset(t), n, steps, a);
    }
    forall a | a in t && (t[a].Success? || t[a].Error?) ensures a !in s.claims {
      assert a !in WaitingRows(Reset(t));
    }
  }

  lemma {:induction false} OccursOnce(claims: seq<Address>, a: Address)
    requires a in claims && forall i, j :: 0 <= i < j < |claims| ==> claims[i] != claims[j]
    ensures multiset(claims)[a] == 1
  {
    var k := |claims| - 1;
    assert claims == claims[..k] + [claims[k]];
    if claims[k] == a {
      assert a !in claims[..k];
    } else {
      OccursOnce(claims[..k], a);
    }
  }

  // ---- termination ----

  function Weight(x: Worker): nat {
    match x.phase
    case Ready => 2 case Locking(_) => 1 case Claimed(_) => 5 case Working(_) => 4 case Done => 0 case Failed => 0
  }

  /** Bounds the steps still possible. */
  function Measure(s: State): nat {
    5 * |WaitingRows(s.status)| + Total(s.workers, Weight)
  }

  lemma ClaimRow(t: Table, a: Address, now: Status)
    requires a in t && !now.Waiting?
    ensures WaitingRows(t[a := now]) == WaitingRows(t) - {a}
    ensures t[a].Waiting? ==> |WaitingRows(t[a := now])| == |WaitingRows(t)| - 1
    ensures !t[a].Waiting? ==> WaitingRows(t[a := now]) == WaitingRows(t)
  {
    assert WaitingRows(t[a := now]) == WaitingRows(t) - {a};
    assert !t[a].Waiting? ==> a !in WaitingRows(t);
  }

  lemma StepWeight(s: State, step: Step)
    requires Enabled(s, step)
    ensures Total(Next(s, step).workers, Weight)
            == Total(s.workers, Weight) - Weight(s.workers[step.w]) + Weight(Next(s, step).workers[step.w])
  {
    TotalUpdate(s.workers, Weight, step.w, Next(s, step).workers[step.w]);
  }

  /** Only a claim changes which rows are waiting, and it takes one away. */
  lemma StepWaiting(start: Table, s: State, step: Step)
    requires Safe(start, s) && Enabled(s, step)
    ensures |WaitingRows(Next(s, step).status)| == |WaitingRows(s.status)| - if step.Claim? then 1 else 0
  {
    if step.Claim? || step.Finish? {
      var a := s.workers[step.w].phase.a;
      assert Holds(s.workers[step.w], a);
      ClaimRow(s.status, a, Next(s, step).status[a]);
    }
  }

  lemma StepDecreases(start: Table, s: State, step: Step)
    requires Safe(start, s) && Enabled(s, step)
    ensures Measure(Next(s, step)) < Measure(s)
  {
    StepWeight(s, step);
    StepWaiting(start, s, step);
  }

  lemma {:induction false} TotalReady(workers: seq<Worker>)
    requires forall w :: 0 <= w < |workers| ==> workers[w].phase.Ready?
    ensures Total(workers, Weight) == 2 * |workers|
  {
    if workers != [] {
      TotalReady(workers[1..]);
    }
  }

  /** No run is longer than five steps per waiting row and two per worker. */
  lemma {:induction false} RunsAreBounded(t: Table, n: nat, steps: seq<Step>)
    requires Run(Start(t, n), steps).Some?
    ensures |steps| + Measure(Run(Start(t, n), steps).value) <= 5 * |WaitingRows(t)| + 2 * n
  {
    if steps == [] {
      TotalReady(Start(t, n).workers);
    } else {
      var k := |steps| - 1;
      RunsAreBounded(t, n, steps[..k]);
      AlwaysSafe(t, n, steps[..k]);
      StepDecreases(t, Run(Start(t, n), steps[..k]).value, steps[k]);
    }
  }

  /** The guards leave a worker that has not returned a step other than failing. */
  lemma CanStep(s: State, w: nat, verified: Address -> bool) returns (step: Step)
    requires w < |s.workers| && !s.workers[w].phase.Done? && !s.workers[w].phase.Failed?
    ensures Enabled(s, step) && step.w == w && !step.Fail?
    ensures step.Finish? ==> step.verified == verified(s.workers[w].phase.a)
  {
    match s.workers[w].phase
    case Ready =>
      if a :| a in s.status && s.status[a].Waiting? && !Locked(s.workers, a) {
        step := Lock(w, a);
      } else {
        step := Exhaust(w);
      }
    case Locking(_) => step := Claim(w);
    case Claimed(_) => step := Begin(w);
    case Working(a) => step := Finish(w, verified(a));
  }

  lemma RunMore(s: State, steps: seq<Step>, step: Step)
    requires Run(s, steps).Some? && Enabled(Run(s, steps).value, step)
    ensures Run(s, steps + [step]) == Some(Next(Run(s, steps).value, step))
  {
    assert (steps + [step])[..|steps|] == steps;
  }

  lemma FinishedMore(s: State, steps: seq<Step>, step: Step, a: Address)
    requires Run(s, steps).Some? && Enabled(Run(s, steps).value, step)
    ensures FinishedAs(s, steps + [step], a)
            == if step.Finish? && Run(s, steps).value.workers[step.w].phase == Working(a) then Some(step.verified)
               else FinishedAs(s, steps, a)
  {
    assert (steps + [step])[..|steps|] == steps;
  }

  /** Rows not finished yet are finished as `verified` tells, if at all. */
  ghost predicate FinishesAs(s: State, steps: seq<Step>, more: seq<Step>, verified: Address -> bool) {
    forall a :: FinishedAs(s, steps + more, a) == FinishedAs(s, steps, a)
                || FinishedAs(s, steps + more, a) == Some(verified(a))
  }

  lemma FinishesStep(t: Table, n: nat, steps: seq<Step>, step: Step, rest: seq<Step>, verified: Address -> bool)
    requires var s := Start(t, n);
             && Run(s, steps).Some? && Enabled(Run(s, steps).value, step)
             && (step.Finish? ==> step.verified == verified(Run(s, steps).value.workers[step.w].phase.a))
             && FinishesAs(s, steps + [step], rest, verified)
    ensures FinishesAs(Start(t, n), steps, [step] + rest, verified)
  {
    assert steps + [step] + rest == steps + ([step] + rest);
    forall a { FinishedMore(Start(t, n), steps, step, a); }
  }

  /** A worker that has not returned can go on, and the run comes nearer to its end. */
  lemma StepOn(t: Table, n: nat, steps: seq<Step>, w: nat, verified: Address -> bool) returns (step: Step)
    requires Run(Start(t, n), steps).Some? && NoneFailed(Run(Start(t, n), steps).value.workers)
    requires w < |Run(Start(t, n), steps).value.workers| && !Run(Start(t, n), steps).value.workers[w].phase.Done?
    ensures Enabled(Run(Start(t, n), steps).value, step)
    ensures step.Finish? ==> step.verified == verified(Run(Start(t, n), steps).value.workers[step.w].phase.a)
    ensures Run(Start(t, n), steps + [step]).Some? && NoneFailed(Run(Start(t, n), steps + [step]).value.workers)
    ensures Measure(Run(Start(t, n), steps + [step]).value) < Measure(Run(Start(t, n), steps).value)
  {
    var s := Run(Start(t, n), steps).value;
    step := CanStep(s, w, verified);
    AlwaysSafe(t, n, steps);
    StepDecreases(t, s, step);
    RunMore(Start(t, n), steps, step);
    StillNoneFailed(s, step);
  }

  /** From every reachable state without a failed worker, and however the processing of the remaining rows turns out,
      the run can be continued until all workers have returned normally, and so until every row is processed: no worker
      is ever stuck. */
  lemma CanFinish(t: Table, n: nat, steps: seq<Step>, verified: Address -> bool)
    returns (more: seq<Step>)
    requires Run(Start(t, n), steps).Some? && NoneFailed(Run(Start(t, n), steps).value.workers)
    ensures Run(Start(t, n), steps + more).Some? && AllDone(Run(Start(t, n), steps + more).value.workers)
    ensures n > 0 ==> Completed(t, Run(Start(t, n), steps + more).value)
    ensures FinishesAs(Start(t, n), steps, more, verified)
  {
    more := CanReturn(t, n, steps, verified);
    if n > 0 {
      AllRowsProcessed(t, n, steps + more);
    }
  }

  /** `more` takes the run to where all workers have returned, with those outcomes. */
  ghost predicate Returns(t: Table, n: nat, steps: seq<Step>, more: seq<Step>, verified: Address -> bool) {
    && Run(Start(t, n), steps + more).Some? && AllDone(Run(Start(t, n), steps + more).value.workers)
    && FinishesAs(Start(t, n), steps, more, verified)
  }

  lemma HasReturned(t: Table, n: nat, steps: seq<Step>, verified: Address -> bool)
    requires Run(Start(t, n), steps).Some? && AllDone(Run(Start(t, n), steps).value.workers)
    ensures Returns(t, n, steps, [], verified)
  {
    assert steps + [] == steps;
  }

  lemma ReturnsStep(t: Table, n: nat, steps: seq<Step>, step: Step, rest: seq<Step>, verified: Address -> bool)
    requires Run(Start(t, n), steps).Some? && Enabled(Run(Start(t, n), steps).value, step)
    requires step.Finish? ==> step.verified == verified(Run(Start(t, n), steps).value.workers[step.w].phase.a)
    requires Returns(t, n, steps + [step], rest, verified)
    ensures Returns(t, n, steps, [step] + rest, verified)
  {
    assert steps + [step] + rest == steps + ([step] + rest);
    FinishesStep(t, n, steps, step, rest, verified);
  }

  lemma {:induction false} CanReturn(t: Table, n: nat, steps: seq<Step>, verified: Address -> bool)
    returns (more: seq<Step>)
    requires Run(Start(t, n), steps).Some? && NoneFailed(Run(Start(t, n), steps).value.workers)
    ensures Returns(t, n, steps, more, verified)
    decreases Measure(Run(Start(t, n), steps).value)
  {
    var workers := Run(Start(t, n), steps).value.workers;
    if w :| 0 <= w < |workers| && !workers[w].phase.Done? {
      var step := StepOn(t, n, steps, w, verified);
      var rest := CanReturn(t, n, steps + [step], verified);
      ReturnsStep(t, n, steps, step, rest, verified);
      more := [step] + rest;
    } else {
      HasReturned(t, n, steps, verified);
      more := [];
    }
  }

  lemma StillNoneFailed(s: State, step: Step)
    requires Enabled(s, step) && !step.Fail? && NoneFailed(s.workers)
    ensures NoneFailed(Next(s, step).workers)
  {
  }

  // ---- one worker, as a loop ----

  /** The table once every waiting row has the outcome of its processing. */
  function Finished(t: Table, verified: Address -> bool): (r: Table)
    ensures r.Keys == t.Keys
    ensures forall a :: a in t && t[a].Waiting? && verified(a) ==> r[a].Success?
    ensures forall a :: a in t && t[a].Waiting? && !verified(a) ==> r[a].Error?
    ensures forall a :: a in t && !t[a].Waiting? ==> r[a] == t[a]
  {
    map a | a in t :: if t[a].Waiting? then (if verified(a) then Success else Error) else t[a]
  }

  /** A run of any number of workers that all return normally leaves the table that one worker alone leaves, if the
      processing of each row turns out the same. */
  lemma AsOneWorker(t: Table, n: nat, steps: seq<Step>)
    requires n > 0 && Run(Start(t, n), steps).Some? && AllDone(Run(Start(t, n), steps).value.workers)
    ensures Run(Start(t, n), steps).value.status
            == Finished(t, a => FinishedAs(Start(t, n), steps, a) == Some(true))
  {
    var s := Run(Start(t, n), steps).value;
    AllRowsProcessed(t, n, steps);
    forall a | a in t && t[a].Waiting?
      ensures s.status[a] == if FinishedAs(Start(t, n), steps, a) == Some(true) then Success else Error
    {
      assert a in WaitingRows(t);
      OutcomeRecorded(t, n, steps, a);
    }
  }

  /** And every such table is reached: whatever the outcomes, some run of the workers ends with them. */
  lemma EveryOutcome(t: Table, n: nat, verified: Address -> bool) returns (steps: seq<Step>)
    requires n > 0
    ensures Run(Start(t, n), steps).Some? && AllDone(Run(Start(t, n), steps).value.workers)
    ensures Run(Start(t, n), steps).value.status == Finished(t, verified)
  {
    steps := CanFinish(t, n, [], verified);
    assert [] + steps == steps;
    var s := Run(Start(t, n), steps).value;
    forall a | a in t && t[a].Waiting? ensures s.status[a] == if verified(a) then Success else Error {
      assert a in WaitingRows(t);
      OutcomeRecorded(t, n, steps, a);
      assert FinishedAs(Start(t, n), [] + steps, a) == FinishedAs(Start(t, n), [], a)
             || FinishedAs(Start(t, n), [] + steps, a) == Some(verified(a));
    }
  }

  class Client {
    var status: Table

    constructor (t: Table, reset: bool)
      ensures status == if reset then Reset(t) else t
    {
      status := t;
      new;
      if reset {
        ResetDatabase();
      }
    }

    method ResetDatabase()
      modifies this
      ensures status == Reset(old(status))
      ensures status.Keys == old(status).Keys
      ensures forall a :: a in status ==> status[a] == if old(status)[a].InProcess? then Waiting else old(status)[a]
    {
      status := map a | a in status :: if status[a].InProcess? then Waiting else status[a];
    }

    /** Claims a waiting row, if there is one. */
    method NextContract() returns (r: Option<Address>)
      modifies this
      ensures r.None? ==> status == old(status) && WaitingRows(status) == {}
      ensures r.Some? ==> r.value in old(WaitingRows(status)) && status == old(status)[r.value := InProcess]
    {
      var rows := WaitingRows(status);
      if rows == {} {
        return None;
      }
      var a :| a in rows;
      status := status[a := InProcess];
      r := Some(a);
    }

    /** Processes rows until none is waiting; `verified` stands for the outcome of processing an address. */
    method VerifyContracts(verified: Address -> bool) returns (processed: nat)
      modifies this
      ensures status == Finished(old(status), verified)
      ensures processed == |WaitingRows(old(status))|
    {
      processed := 0;
      ghost var before := status;
      var next := NextContract();
      while next.Some?
        invariant Finished(old(status), verified) == Finished(before, verified)
        invariant |WaitingRows(old(status))| == processed + |WaitingRows(before)|
        invariant next.Some? ==> next.value in WaitingRows(before) && status == before[next.value := InProcess]
        invariant next.None? ==> WaitingRows(before) == {} && status == before
        decreases |WaitingRows(before)|
      {
        FinishRow(before, next.value, verified);
        processed := processed + 1;
        status := status[next.value := if verified(next.value) then Success else Error];
        before := status;
        next := NextContract();
      }
      NothingWaiting(status, verified);
    }
  }

  lemma FinishRow(t: Table, a: Address, verified: Address -> bool)
    requires a in WaitingRows(t)
    ensures var r := t[a := InProcess][a := if verified(a) then Success else Error];
            Finished(r, verified) == Finished(t, verified) && |WaitingRows(r)| == |WaitingRows(t)| - 1
  {
    var outcome := if verified(a) then Success else Error;
    assert t[a := InProcess][a := outcome] == t[a := outcome];
    ClaimRow(t, a, outcome);
    assert Finished(t[a := outcome], verified) == Finished(t, verified);
  }

  lemma NothingWaiting(t: Table, verified: Address -> bool)
    requires WaitingRows(t) == {}
    ensures Finished(t, verified) == t
  {
    forall a | a in t ensures !t[a].Waiting? {
      assert a !in WaitingRows(t);
    }
  }
}
