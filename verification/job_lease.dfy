/** One optimization job row shared by workers, a recovery timer and users who cancel.
    Every database call is one atomic step; calls of different parties interleave freely
    and clocks may disagree. */
module JobLease {
  import opened Prelude

  datatype Status =
    Pending | Running | Retrying | CancelRequested | Cancelled |
    Succeeded | Partial | Infeasible | Timeout | Failed | Applied

  /** Which attempt of which worker produced the stored result. */
  datatype Result = Result(worker: nat, attempt: nat)

  datatype Row = Row(status: Status, owner: Option<nat>, leaseUntil: Option<int>, attemptCount: nat,
      result: Option<Result>)

  predicate IsLive(s: Status) {
    s in {Pending, Running, Retrying}
  }

  predicate IsCancelling(s: Status) {
    s in {CancelRequested, Cancelled}
  }

  // ---------- the writes ----------

  predicate LeaseExpired(row: Row, now: int) {
    row.status == Running && row.leaseUntil.Some? && row.leaseUntil.value < now
  }

  predicate CanClaim(row: Row, now: int) {
    row.status in {Pending, Retrying} || LeaseExpired(row, now)
  }

  predicate Holds(row: Row, w: nat) {
    row.status == Running && row.owner == Some(w)
  }

  function Claimed(row: Row, w: nat, now: int, until: int): Row {
    if CanClaim(row, now)
    then row.(status := Running, owner := Some(w), leaseUntil := Some(until), attemptCount := row.attemptCount + 1)
    else row
  }

  function Renewed(row: Row, w: nat, until: int): Row {
    if Holds(row, w) then row.(leaseUntil := Some(until)) else row
  }

  function Finalised(row: Row, w: nat, attempt: nat, status: Status): Row {
    if Holds(row, w)
    then row.(status := status, owner := None, leaseUntil := None, result := Some(Result(w, attempt)))
    else row
  }

  function GivenUp(row: Row, w: nat, finalAttempt: bool): Row {
    if Holds(row, w)
    then row.(status := if finalAttempt then Failed else Retrying, owner := None, leaseUntil := None)
    else row
  }

  /** Before claiming: the row was read as waiting to be cancelled. */
  function Acknowledged(row: Row): Row {
    row.(status := Cancelled, leaseUntil := None)
  }

  /** After solving: the row was read as waiting to be cancelled. */
  function Abandoned(row: Row): Row {
    row.(status := Cancelled, owner := None, leaseUntil := None, result := None)
  }

  function CancelStatus(seen: Status): Status {
    if seen == Running then CancelRequested else Cancelled
  }

  /** A user turns a finished plan into trips: in one transaction, and only once. */
  predicate CanApply(row: Row) {
    row.status in {Succeeded, Partial}
  }

  function AppliedVersion(row: Row): Row {
    if CanApply(row) then row.(status := Applied) else row
  }

  function Reclaimed(row: Row, now: int): Row {
    if LeaseExpired(row, now) then row.(status := Retrying, owner := None, leaseUntil := None) else row
  }

  /** The stored row, updated in place; conditional updates report how many rows changed. */
  class OptimizationJob {
    var status: Status
    var leaseOwner: Option<nat>
    var leaseUntil: Option<int>
    var attemptCount: nat
    var result: Option<Result>

    function Contents(): Row
      reads this
    {
      Row(status, leaseOwner, leaseUntil, attemptCount, result)
    }

    constructor ()
      ensures Contents() == Row(Pending, None, None, 0, None)
    {
      status, leaseOwner, leaseUntil, attemptCount, result := Pending, None, None, 0, None;
    }

    /** Conditional: at most one of several workers that saw the row waiting gets it, and a
        running row is taken over only when its lease lies before the given clock. */
    method Claim(w: nat, now: int, until: int) returns (count: nat)
      modifies this
      ensures Contents() == Claimed(old(Contents()), w, now, until)
      ensures count <= 1 && attemptCount == old(attemptCount) + count && result == old(result)
      ensures if count == 1 then status == Running && leaseOwner == Some(w) && leaseUntil == Some(until)
              else Contents() == old(Contents())
      ensures count == 1 <==>
                || old(status) == Pending || old(status) == Retrying
                || (old(status) == Running && old(leaseUntil).Some? && old(leaseUntil).value < now)
      ensures old(RowOk(Contents())) ==> RowOk(Contents())
    {
      if !CanClaim(Contents(), now) {
        return 0;
      }
      status, leaseOwner, leaseUntil, attemptCount := Running, Some(w), Some(until), attemptCount + 1;
      return 1;
    }

    /** Only the owner of a running row can keep its lease alive. */
    method Heartbeat(w: nat, until: int)
      modifies this
      ensures Contents() == Renewed(old(Contents()), w, until)
      ensures !Holds(old(Contents()), w) ==> Contents() == old(Contents())
      ensures old(RowOk(Contents())) ==> RowOk(Contents())
    {
      if status == Running && leaseOwner == Some(w) {
        leaseUntil := Some(until);
      }
    }

    /** Only the owner of a running row can store a result, and then the row has ended. */
    method Finalise(w: nat, attempt: nat, outcome: Status) returns (stored: bool)
      requires outcome in OUTCOMES
      modifies this
      ensures Contents() == Finalised(old(Contents()), w, attempt, outcome)
      ensures if stored then !IsLive(status) && result == Some(Result(w, attempt)) else Contents() == old(Contents())
      ensures stored <==> Holds(old(Contents()), w)
      ensures old(RowOk(Contents())) && (stored ==> attempt == attemptCount) ==> RowOk(Contents())
    {
      if status != Running || leaseOwner != Some(w) {
        return false;
      }
      status, leaseOwner, leaseUntil := outcome, None, None;
      result := Some(Result(w, attempt));
      return true;
    }

    /** The owner gives up: for good after the last attempt, and for a retry before. */
    method Fail(w: nat, finalAttempt: bool)
      modifies this
      ensures old(status) == Running && old(leaseOwner) == Some(w) ==>
                && status == (if finalAttempt then Failed else Retrying) && leaseOwner == None && leaseUntil == None
                && attemptCount == old(attemptCount) && result == old(result)
      ensures Contents() == GivenUp(old(Contents()), w, finalAttempt)
      ensures !Holds(Contents(), w)
      ensures !Holds(old(Contents()), w) ==> Contents() == old(Contents())
      ensures old(RowOk(Contents())) ==> RowOk(Contents())
    {
      if status == Running && leaseOwner == Some(w) {
        status := if finalAttempt then Failed else Retrying;
        leaseOwner, leaseUntil := None, None;
      }
    }

    method AcknowledgeCancel()
      modifies this
      ensures Contents() == Acknowledged(old(Contents())) && IsCancelling(status)
      ensures old(RowOk(Contents())) ==> RowOk(Contents())
    {
      status, leaseUntil := Cancelled, None;
    }

    method ConfirmCancel()
      modifies this
      ensures Contents() == Abandoned(old(Contents())) && IsCancelling(status)
      ensures RowOk(Contents())
    {
      status, leaseOwner, leaseUntil, result := Cancelled, None, None, None;
    }

    /** Unconditional: what was seen earlier decides, whatever the row has become. */
    method Cancel(seen: Status)
      modifies this
      ensures Contents() == old(Contents()).(status := CancelStatus(seen)) && IsCancelling(status)
      ensures status == if seen == Running then CancelRequested else Cancelled
      ensures old(RowOk(Contents())) ==> RowOk(Contents())
    {
      status := CancelStatus(seen);
    }

    method ApplyResult() returns (count: nat)
      modifies this
      ensures Contents() == AppliedVersion(old(Contents()))
      ensures count == if old(status) == Succeeded || old(status) == Partial then 1 else 0
      ensures count == 1 ==> status == Applied
      ensures old(RowOk(Contents())) ==> RowOk(Contents())
    {
      if !CanApply(Contents()) {
        return 0;
      }
      status := Applied;
      return 1;
    }

    /** Puts a running row back when its lease lies before the given clock. */
    method Requeue(now: int)
      modifies this
      ensures Contents() == Reclaimed(old(Contents()), now)
      ensures if old(status) == Running && old(leaseUntil).Some? && old(leaseUntil).value < now
              then status == Retrying && leaseOwner == None && leaseUntil == None && attemptCount == old(attemptCount)
              else Contents() == old(Contents())
      ensures old(RowOk(Contents())) ==> RowOk(Contents())
    {
      if LeaseExpired(Contents(), now) {
        status, leaseOwner, leaseUntil := Retrying, None, None;
      }
    }
  }

  // ---------- the interleaving ----------

  /** Where a worker process stands; each runs one job at a time. */
  datatype Phase =
    | Idle
    | Fetched(seen: Status)
    | Solving(attempt: nat)
    | Checked(attempt: nat, latest: Status)
    | Finishing(attempt: nat)
    | Crashed

  /** Parties not listed are idle. */
  datatype System = System(row: Row, workers: map<nat, Phase>, cancels: map<nat, Status>, recoveries: map<nat, int>)

  datatype Step =
    | Fetch(w: nat)
    | LeaveAlone(w: nat)
    | AcknowledgeCancel(w: nat)
    | Claim(w: nat, now: int, until: int, answered: bool)
    | Heartbeat(w: nat, until: int)
    | CheckLatest(w: nat)
    | ConfirmCancel(w: nat)
    | Finalise(w: nat, outcome: Status)
    | Finish(w: nat)
    | Fail(w: nat, finalAttempt: bool)
    | Crash(w: nat)
    | ReadForCancel(user: nat)
    | WriteCancel(user: nat)
    | ApplyResult(user: nat)
    | FindExpired(timer: nat, now: int)
    | Requeue(timer: nat)

  function PhaseOf(s: System, w: nat): Phase {
    if w in s.workers then s.workers[w] else Idle
  }

  /** The attempt a worker believes it is running. */
  function AttemptOf(p: Phase): Option<nat> {
    match p
    case Solving(a) => Some(a)
    case Checked(a, _) => Some(a)
    case Finishing(a) => Some(a)
    case _ => None
  }

  const OUTCOMES := {Succeeded, Partial, Infeasible, Timeout, Failed}

  const SETTLED := {Succeeded, Partial, Infeasible, Failed, Timeout, Applied, Cancelled}

  predicate Enabled(s: System, step: Step) {
    match step
    case Fetch(w) => PhaseOf(s, w) == Idle
    case LeaveAlone(w) => PhaseOf(s, w) in {Fetched(Cancelled), Fetched(Applied)}
    case AcknowledgeCancel(w) => PhaseOf(s, w) == Fetched(CancelRequested)
    case Claim(w, _, _, _) => PhaseOf(s, w).Fetched? && PhaseOf(s, w).seen !in {Cancelled, Applied, CancelRequested}
    case Heartbeat(w, _) => PhaseOf(s, w) != Crashed
    case CheckLatest(w) => PhaseOf(s, w).Solving?
    case ConfirmCancel(w) => PhaseOf(s, w).Checked? && PhaseOf(s, w).latest == CancelRequested
    case Finalise(w, outcome) =>
      PhaseOf(s, w).Checked? && PhaseOf(s, w).latest != CancelRequested && outcome in OUTCOMES
    case Finish(w) => PhaseOf(s, w).Finishing?
    case Fail(w, _) => AttemptOf(PhaseOf(s, w)).Some?
    case Crash(w) => true
    case ReadForCancel(user) => s.row.status !in SETTLED
    case WriteCancel(user) => user in s.cancels
    case ApplyResult(_) => CanApply(s.row)
    case FindExpired(_, now) => LeaseExpired(s.row, now)
    case Requeue(timer) => timer in s.recoveries
  }

  function Move(s: System, w: nat, p: Phase): System {
    s.(workers := s.workers[w := p])
  }

  ghost function Apply(s: System, step: Step): System
    requires Enabled(s, step)
  {
    match step
    case Fetch(w) => Move(s, w, Fetched(s.row.status))
    case LeaveAlone(w) => Move(s, w, Idle)
    case AcknowledgeCancel(w) => Move(s, w, Idle).(row := Acknowledged(s.row))
    case Claim(w, now, until, answered) =>
      Move(s, w, if CanClaim(s.row, now) && answered then Solving(s.row.attemptCount + 1) else Idle)
        .(row := Claimed(s.row, w, now, until))
    case Heartbeat(w, until) => s.(row := Renewed(s.row, w, until))
    case CheckLatest(w) => Move(s, w, Checked(PhaseOf(s, w).attempt, s.row.status))
    case ConfirmCancel(w) => Move(s, w, Idle).(row := Abandoned(s.row))
    case Finalise(w, outcome) =>
      Move(s, w, Finishing(PhaseOf(s, w).attempt)).(row := Finalised(s.row, w, PhaseOf(s, w).attempt, outcome))
    case Finish(w) => Move(s, w, Idle)
    case Fail(w, finalAttempt) => Move(s, w, Idle).(row := GivenUp(s.row, w, finalAttempt))
    case Crash(w) => Move(s, w, Crashed)
    case ReadForCancel(user) => s.(cancels := s.cancels[user := s.row.status])
    case WriteCancel(user) =>
      s.(row := s.row.(status := CancelStatus(s.cancels[user])), cancels := s.cancels - {user})
    case ApplyResult(_) => s.(row := AppliedVersion(s.row))
    case FindExpired(timer, now) => s.(recoveries := s.recoveries[timer := now])
    case Requeue(timer) => s.(row := Reclaimed(s.row, s.recoveries[timer]), recoveries := s.recoveries - {timer})
  }

  /** A freshly created job. */
  ghost function Initial(): System {
    System(Row(Pending, None, None, 0, None), map[], map[], map[])
  }

  ghost predicate IsRun(states: seq<System>, steps: seq<Step>) {
    IsRunFrom(Initial(), states, steps)
  }

  ghost predicate IsRunFrom(s: System, states: seq<System>, steps: seq<Step>) {
    && |states| == |steps| + 1 && states[0] == s
    && forall i | 0 <= i < |steps| :: Enabled(states[i], steps[i]) && states[i + 1] == Apply(states[i], steps[i])
  }

  // ---------- what every step keeps ----------

  ghost predicate Inv(s: System) {
    && RowOk(s.row)
    && (forall w: nat :: WorkerOk(s.row, w, PhaseOf(s, w)))
    && (forall w: nat, x: nat | w != x :: DifferentAttempts(PhaseOf(s, w), PhaseOf(s, x)))
    && (forall user | user in s.cancels :: s.cancels[user] !in SETTLED)
  }

  /** A running row has an owner and a lease that can expire, and no attempt runs or can
      start once a result is stored. */
  predicate RowOk(row: Row) {
    && (row.status == Running ==> row.owner.Some? && row.leaseUntil.Some?)
    && (row.result.Some? ==> !IsLive(row.status) && row.result.value.attempt == row.attemptCount)
  }

  /** A worker that owns the row runs the latest attempt. */
  predicate WorkerOk(row: Row, w: nat, p: Phase) {
    && (AttemptOf(p).Some? ==> AttemptOf(p).value <= row.attemptCount)
    && (AttemptOf(p).Some? && row.owner == Some(w) ==> AttemptOf(p).value == row.attemptCount)
    && (SawCancel(p) ==> IsCancelling(row.status))
  }

  predicate DifferentAttempts(p: Phase, q: Phase) {
    AttemptOf(p).Some? ==> AttemptOf(p) != AttemptOf(q)
  }

  predicate SawCancel(p: Phase) {
    p == Fetched(CancelRequested) || p == Fetched(Cancelled) || (p.Checked? && IsCancelling(p.latest))
  }

  /** The step is a claim that succeeds. */
  ghost predicate Claims(s: System, step: Step) {
    step.Claim? && CanClaim(s.row, step.now)
  }

  /** The step stores a result. */
  ghost predicate Stores(s: System, step: Step) {
    step.Finalise? && Holds(s.row, step.w)
  }

  /** The step ends its worker's attempt with an effect on the row. */
  ghost predicate EndsAttempt(s: System, step: Step) {
    (step.Finalise? || step.Fail?) && Holds(s.row, step.w)
  }

  lemma InitialInv()
    ensures Inv(Initial())
  {
  }

  /** A row write that cannot break what holds of worker `x`. */
  predicate Respects(row: Row, row': Row, x: nat) {
    && (IsCancelling(row.status) ==> IsCancelling(row'.status))
    && row.attemptCount <= row'.attemptCount
    && (row'.owner == Some(x) ==> row.owner == Some(x) && row'.attemptCount == row.attemptCount)
  }

  function Actor(step: Step): Option<nat> {
    match step
    case Heartbeat(_, _) => None
    case ReadForCancel(_) => None
    case WriteCancel(_) => None
    case ApplyResult(_) => None
    case FindExpired(_, _) => None
    case Requeue(_) => None
    case _ => Some(step.w)
  }

  lemma OthersUntouched(s: System, step: Step, x: nat)
    requires Inv(s) && Enabled(s, step) && Actor(step) != Some(x)
    ensures PhaseOf(Apply(s, step), x) == PhaseOf(s, x)
    ensures Respects(s.row, Apply(s, step).row, x)
  {
    if step.Claim? || step.Finalise? || step.Fail? || step.CheckLatest? || step.ConfirmCancel? {
      assert WorkerOk(s.row, step.w, PhaseOf(s, step.w));
    }
  }

  lemma ActorStaysOk(s: System, step: Step, w: nat)
    requires Inv(s) && Enabled(s, step) && Actor(step) == Some(w)
    ensures WorkerOk(Apply(s, step).row, w, PhaseOf(Apply(s, step), w))
    ensures RowOk(Apply(s, step).row)
    ensures AttemptOf(PhaseOf(Apply(s, step), w)).Some? ==>
              || AttemptOf(PhaseOf(Apply(s, step), w)) == AttemptOf(PhaseOf(s, w))
              || AttemptOf(PhaseOf(Apply(s, step), w)).value == s.row.attemptCount + 1
  {
    assert WorkerOk(s.row, w, PhaseOf(s, w));
  }

  lemma NobodyActs(s: System, step: Step)
    requires Inv(s) && Enabled(s, step) && Actor(step) == None
    ensures RowOk(Apply(s, step).row)
  {
  }

  lemma StepKeepsInv(s: System, step: Step)
    requires Inv(s) && Enabled(s, step)
    ensures Inv(Apply(s, step))
  {
    hide RowOk, WorkerOk, Respects, DifferentAttempts, PhaseOf;
    var s' := Apply(s, step);
    if Actor(step).Some? {
      ActorStaysOk(s, step, Actor(step).value);
    } else {
      NobodyActs(s, step);
    }
    forall w: nat
      ensures WorkerOk(s'.row, w, PhaseOf(s', w))
    {
      if Actor(step) == Some(w) {
        ActorStaysOk(s, step, w);
      } else {
        OthersUntouched(s, step, w);
        StillOk(s.row, s'.row, w, PhaseOf(s, w));
      }
    }
    forall w: nat, x: nat | w != x
      ensures DifferentAttempts(PhaseOf(s', w), PhaseOf(s', x))
    {
      AttemptsStayDifferent(s, step, w, x);
    }
  }

  lemma StillOk(row: Row, row': Row, w: nat, p: Phase)
    requires WorkerOk(row, w, p) && Respects(row, row', w)
    ensures WorkerOk(row', w, p)
  {
  }

  lemma AttemptsStayDifferent(s: System, step: Step, w: nat, x: nat)
    requires Inv(s) && Enabled(s, step) && w != x
    ensures DifferentAttempts(PhaseOf(Apply(s, step), w), PhaseOf(Apply(s, step), x))
  {
    hide Inv, Apply, Enabled, PhaseOf;
    assert WorkerOk(s.row, w, PhaseOf(s, w)) && WorkerOk(s.row, x, PhaseOf(s, x))
        && DifferentAttempts(PhaseOf(s, w), PhaseOf(s, x)) by { InvAt(s, w, x); }
    if Actor(step) == Some(w) {
      ActorStaysOk(s, step, w);
    } else {
      OthersUntouched(s, step, w);
    }
    if Actor(step) == Some(x) {
      ActorStaysOk(s, step, x);
    } else {
      OthersUntouched(s, step, x);
    }
  }

  lemma InvAt(s: System, w: nat, x: nat)
    requires Inv(s) && w != x
    ensures WorkerOk(s.row, w, PhaseOf(s, w)) && WorkerOk(s.row, x, PhaseOf(s, x))
    ensures DifferentAttempts(PhaseOf(s, w), PhaseOf(s, x))
  {
  }

  /** Live rows never come back, cancelling is final among all writes, and the attempt
      counter counts claims. */
  lemma StepKeepsCourse(s: System, step: Step)
    requires Inv(s) && Enabled(s, step)
    ensures IsCancelling(s.row.status) ==> IsCancelling(Apply(s, step).row.status)
    ensures !IsLive(s.row.status) ==> !IsLive(Apply(s, step).row.status)
    ensures Apply(s, step).row.attemptCount == s.row.attemptCount + if Claims(s, step) then 1 else 0
    ensures Stores(s, step) ==> IsLive(s.row.status) && !IsLive(Apply(s, step).row.status)
  {
  }

  // ---------- a worker among the others ----------

  /** Cancelling and ended rows stay so, and an ended row is not claimed. */
  predicate KeepsCourse(row: Row, row': Row) {
    && (IsCancelling(row.status) ==> IsCancelling(row'.status))
    && (!IsLive(row.status) ==> !IsLive(row'.status) && row'.attemptCount == row.attemptCount)
    && row.attemptCount <= row'.attemptCount
  }

  /** How one delivery of the job to a worker ends. */
  datatype Ending = Ignored | CancelConfirmed | NotClaimed | GaveUp | Stored | LeaseLost

  /** The row and everybody who works on it. */
  class Deployment {
    const job: OptimizationJob
    var workers: map<nat, Phase>
    var cancels: map<nat, Status>
    var recoveries: map<nat, int>

    function Contents(): System
      reads this, job
    {
      System(job.Contents(), workers, cancels, recoveries)
    }

    constructor ()
      ensures Contents() == Initial() && fresh(job)
    {
      job := new OptimizationJob();
      workers, cancels, recoveries := map[], map[], map[];
    }

    /** One database call of one party. */
    method Perform(step: Step) returns (seen: Status, changed: bool)
      requires Inv(Contents()) && Enabled(Contents(), step)
      modifies this, job
      ensures Contents() == Apply(old(Contents()), step) && Inv(Contents())
      ensures KeepsCourse(old(Contents()).row, Contents().row)
      ensures seen == old(job.status)
      ensures step.Claim? ==> (changed <==> Claims(old(Contents()), step))
      ensures step.Finalise? ==> (changed <==> Stores(old(Contents()), step))
    {
      hide Inv;
      StepKeepsInv(Contents(), step);
      StepKeepsCourse(Contents(), step);
      seen, changed := job.status, false;
      match step {
        case Fetch(w) =>
          workers := workers[w := Fetched(seen)];
        case LeaveAlone(w) =>
          workers := workers[w := Idle];
        case AcknowledgeCancel(w) =>
          job.AcknowledgeCancel();
          workers := workers[w := Idle];
        case Claim(w, now, until, answered) =>
          var count := job.Claim(w, now, until);
          changed := count == 1;
          workers := workers[w := if changed && answered then Solving(job.attemptCount) else Idle];
        case Heartbeat(w, until) =>
          job.Heartbeat(w, until);
        case CheckLatest(w) =>
          workers := workers[w := Checked(workers[w].attempt, seen)];
        case ConfirmCancel(w) =>
          job.ConfirmCancel();
          workers := workers[w := Idle];
        case Finalise(w, outcome) =>
          changed := job.Finalise(w, workers[w].attempt, outcome);
          workers := workers[w := Finishing(workers[w].attempt)];
        case Finish(w) =>
          workers := workers[w := Idle];
        case Fail(w, finalAttempt) =>
          job.Fail(w, finalAttempt);
          workers := workers[w := Idle];
        case Crash(w) =>
          workers := workers[w := Crashed];
        case ReadForCancel(user) =>
          cancels := cancels[user := seen];
        case WriteCancel(user) =>
          job.Cancel(cancels[user]);
          cancels := cancels - {user};
        case ApplyResult(_) =>
          var count := job.ApplyResult();
        case FindExpired(timer, now) =>
          recoveries := recoveries[timer := now];
        case Requeue(timer) =>
          job.Requeue(recoveries[timer]);
          recoveries := recoveries - {timer};
      }
    }

    /** Whatever the other parties, and this worker's own heartbeat, do in the meantime. */
    method OthersAct(w: nat, schedule: seq<Step>)
      requires Inv(Contents())
      modifies this, job
      ensures Inv(Contents())
      ensures PhaseOf(Contents(), w) == PhaseOf(old(Contents()), w)
      ensures Respects(old(Contents()).row, Contents().row, w)
      ensures KeepsCourse(old(Contents()).row, Contents().row)
      ensures schedule == [] ==> Contents() == old(Contents())
    {
      hide Inv, Apply, Enabled, PhaseOf;
      ghost var before := Contents();
      for k := 0 to |schedule|
        invariant Inv(Contents()) && PhaseOf(Contents(), w) == PhaseOf(before, w)
        invariant Respects(before.row, Contents().row, w) && KeepsCourse(before.row, Contents().row)
        invariant k == 0 ==> Contents() == before
      {
        var step := schedule[k];
        if Actor(step) != Some(w) && Enabled(Contents(), step) {
          OthersUntouched(Contents(), step, w);
          var _, _ := Perform(step);
        }
      }
    }

    /** One delivery of the job to worker `w`, with the other parties acting between its
        database calls; `solved` is none when the solver throws. Whatever they do: a result
        is stored only by the attempt that is still the current one, a cancelled job is
        never started or finished, and an ended one is not started again. */
    method Process(w: nat, now: int, until: int, solved: Option<Status>, finalAttempt: bool,
                   afterFetch: seq<Step>, whileSolving: seq<Step>, beforeStoring: seq<Step>)
      returns (ending: Ending)
      requires Inv(Contents()) && PhaseOf(Contents(), w) == Idle && (solved.Some? ==> solved.value in OUTCOMES)
      modifies this, job
      ensures Inv(Contents()) && PhaseOf(Contents(), w) == Idle
      ensures KeepsCourse(old(job.Contents()), job.Contents())
      ensures ending in {GaveUp, Stored, LeaseLost} ==>
                IsLive(old(job.status)) && !Holds(job.Contents(), w) && job.attemptCount > old(job.attemptCount)
      ensures ending == Stored ==> solved == Some(job.status) && job.result == Some(Result(w, job.attemptCount))
      ensures ending == CancelConfirmed ==> job.status == Cancelled
      ensures afterFetch == [] && old(job.status == Running && job.leaseUntil.Some? && now <= job.leaseUntil.value) ==>
                ending == NotClaimed && job.Contents() == old(job.Contents())
    {
      hide Inv;
      var seen, _ := Perform(Fetch(w));
      if seen in {Cancelled, Applied} {
        var _, _ := Perform(LeaveAlone(w));
        return Ignored;
      }
      OthersAct(w, afterFetch);
      if seen == CancelRequested {
        var _, _ := Perform(AcknowledgeCancel(w));
        return CancelConfirmed;
      }
      var _, claimed := Perform(Claim(w, now, until, true));
      if !claimed {
        return NotClaimed;
      }
      OthersAct(w, whileSolving);
      ending := FinishAttempt(w, solved, finalAttempt, beforeStoring);
    }

    /** The end of an attempt, once the solver has returned or thrown. */
    method FinishAttempt(w: nat, solved: Option<Status>, finalAttempt: bool, beforeStoring: seq<Step>)
      returns (ending: Ending)
      requires Inv(Contents()) && PhaseOf(Contents(), w).Solving? && (solved.Some? ==> solved.value in OUTCOMES)
      modifies this, job
      ensures Inv(Contents()) && PhaseOf(Contents(), w) == Idle
      ensures KeepsCourse(old(job.Contents()), job.Contents())
      ensures ending in {GaveUp, Stored, LeaseLost, CancelConfirmed}
      ensures ending != CancelConfirmed ==> !Holds(job.Contents(), w)
      ensures ending == Stored ==> solved == Some(job.status) && job.result == Some(Result(w, job.attemptCount))
      ensures ending == CancelConfirmed ==> job.status == Cancelled
    {
      hide Inv;
      if solved.None? {
        var _, _ := Perform(Fail(w, finalAttempt));
        return GaveUp;
      }
      var latest, _ := Perform(CheckLatest(w));
      OthersAct(w, beforeStoring);
      if latest == CancelRequested {
        var _, _ := Perform(ConfirmCancel(w));
        return CancelConfirmed;
      }
      CurrentIfHolding(Contents(), w);
      var _, stored := Perform(Finalise(w, solved.value));
      var _, _ := Perform(Finish(w));
      return if stored then Stored else LeaseLost;
    }
  }

  /** A worker that still holds the row runs the current attempt. */
  lemma CurrentIfHolding(s: System, w: nat)
    requires Inv(s) && AttemptOf(PhaseOf(s, w)).Some?
    ensures Holds(s.row, w) ==> AttemptOf(PhaseOf(s, w)).value == s.row.attemptCount
  {
    assert WorkerOk(s.row, w, PhaseOf(s, w));
  }

  // ---------- whole runs ----------

  lemma {:induction false} RunKeepsInv(states: seq<System>, steps: seq<Step>, i: nat)
    requires IsRun(states, steps) && i < |states|
    ensures Inv(states[i])
  {
    hide Inv, Apply, Enabled;
    if i == 0 {
      InitialInv();
    } else {
      RunKeepsInv(states, steps, i - 1);
      StepKeepsInv(states[i - 1], steps[i - 1]);
    }
  }

  /** How many of the first `n` steps were successful claims. */
  ghost function ClaimCount(states: seq<System>, steps: seq<Step>, n: nat): nat
    requires n <= |steps| < |states|
  {
    if n == 0 then 0 else ClaimCount(states, steps, n - 1) + if Claims(states[n - 1], steps[n - 1]) then 1 else 0
  }

  ghost predicate NoClaimIn(states: seq<System>, steps: seq<Step>, from: nat, to: nat)
    requires to <= |steps| < |states|
  {
    forall k | from <= k < to :: !Claims(states[k], steps[k])
  }

  lemma {:induction false} AttemptsCountClaims(states: seq<System>, steps: seq<Step>, i: nat)
    requires IsRun(states, steps) && i < |states|
    ensures states[i].row.attemptCount == ClaimCount(states, steps, i)
  {
    hide Inv, Apply, Enabled, Claims;
    if i == 0 {
    } else {
      AttemptsCountClaims(states, steps, i - 1);
      RunKeepsInv(states, steps, i - 1);
      StepKeepsCourse(states[i - 1], steps[i - 1]);
    }
  }

  lemma OwnerChanges(s: System, step: Step)
    requires Enabled(s, step)
    ensures Claims(s, step) ==> Apply(s, step).row.owner == Some(step.w)
    ensures !Claims(s, step) && Apply(s, step).row.owner.Some? ==> s.row.owner == Apply(s, step).row.owner
  {
  }

  lemma {:induction false} OwnerMadeLastClaim(states: seq<System>, steps: seq<Step>, i: nat) returns (c: nat)
    requires IsRun(states, steps) && i < |states| && states[i].row.owner.Some?
    ensures c < i && Claims(states[c], steps[c]) && steps[c].w == states[i].row.owner.value
    ensures NoClaimIn(states, steps, c + 1, i)
  {
    hide Apply, Enabled, Claims;
    OwnerChanges(states[i - 1], steps[i - 1]);
    if Claims(states[i - 1], steps[i - 1]) {
      c := i - 1;
    } else {
      c := OwnerMadeLastClaim(states, steps, i - 1);
    }
  }

  /** Fencing: a finalise or fail that takes effect comes from the worker of the latest
      successful claim, and its attempt is the current one. A worker whose lease was
      reclaimed in the meantime changes nothing. */
  lemma OnlyTheLatestClaimEnds(states: seq<System>, steps: seq<Step>, i: nat) returns (c: nat)
    requires IsRun(states, steps) && i < |steps| && EndsAttempt(states[i], steps[i])
    ensures c < i && Claims(states[c], steps[c]) && steps[c].w == steps[i].w
    ensures NoClaimIn(states, steps, c + 1, i)
    ensures AttemptOf(PhaseOf(states[i], steps[i].w)) == Some(states[i].row.attemptCount)
    ensures states[i].row.attemptCount == ClaimCount(states, steps, i)
  {
    var w := steps[i].w;
    c := OwnerMadeLastClaim(states, steps, i);
    AttemptsCountClaims(states, steps, i);
    RunKeepsInv(states, steps, i);
    assert Enabled(states[i], steps[i]);
    assert WorkerOk(states[i].row, w, PhaseOf(states[i], w));
  }

  /** Once a cancellation is requested or done, no write of any party takes the row out of
      cancelling, and no result is stored any more. */
  lemma {:induction false} CancellationIsFinal(states: seq<System>, steps: seq<Step>, i: nat, j: nat)
    requires IsRun(states, steps) && i <= j < |states| && IsCancelling(states[i].row.status)
    ensures IsCancelling(states[j].row.status)
    ensures j < |steps| ==> !EndsAttempt(states[j], steps[j]) && !Claims(states[j], steps[j])
  {
    hide Inv, Apply, Enabled;
    if i < j {
      CancellationIsFinal(states, steps, i, j - 1);
      RunKeepsInv(states, steps, j - 1);
      StepKeepsCourse(states[j - 1], steps[j - 1]);
    }
  }

  lemma {:induction false} EndedStaysEnded(states: seq<System>, steps: seq<Step>, i: nat, j: nat)
    requires IsRun(states, steps) && i <= j < |states| && !IsLive(states[i].row.status)
    ensures !IsLive(states[j].row.status)
    ensures j < |steps| ==> !EndsAttempt(states[j], steps[j]) && !Claims(states[j], steps[j])
  {
    hide Inv, Apply, Enabled;
    if i < j {
      EndedStaysEnded(states, steps, i, j - 1);
      RunKeepsInv(states, steps, j - 1);
      StepKeepsCourse(states[j - 1], steps[j - 1]);
    }
  }

  /** In any run at most one finalise takes effect. */
  lemma AtMostOneStore(states: seq<System>, steps: seq<Step>, i: nat, j: nat)
    requires IsRun(states, steps) && i < |steps| && j < |steps|
    requires Stores(states[i], steps[i]) && Stores(states[j], steps[j])
    ensures i == j
  {
    hide Inv, Apply, Enabled;
    RunKeepsInv(states, steps, i);
    RunKeepsInv(states, steps, j);
    StepKeepsCourse(states[i], steps[i]);
    StepKeepsCourse(states[j], steps[j]);
    if i < j {
      EndedStaysEnded(states, steps, i + 1, j);
    } else if j < i {
      EndedStaysEnded(states, steps, j + 1, i);
    }
  }

  lemma ResultChanges(s: System, step: Step)
    requires Enabled(s, step)
    ensures Stores(s, step) ==> Apply(s, step).row.result == Some(Result(step.w, PhaseOf(s, step.w).attempt))
    ensures !Stores(s, step) && Apply(s, step).row.result.Some? ==> s.row.result == Apply(s, step).row.result
  {
  }

  /** A stored result was written by the worker it names, in the latest attempt there was
      and ever will be. */
  lemma {:induction false} StoredResultIsLatest(states: seq<System>, steps: seq<Step>, j: nat) returns (i: nat)
    requires IsRun(states, steps) && j < |states| && states[j].row.result.Some?
    ensures i < j && Stores(states[i], steps[i]) && steps[i].w == states[j].row.result.value.worker
    ensures states[j].row.result.value.attempt == ClaimCount(states, steps, j)
    ensures NoClaimIn(states, steps, i, |steps|)
  {
    hide Inv, Apply, Enabled, Claims, EndsAttempt, Stores;
    AttemptsCountClaims(states, steps, j);
    assert states[j].row.result.value.attempt == states[j].row.attemptCount && j > 0 by {
      ResultIsCurrent(states, steps, j);
    }
    ResultChanges(states[j - 1], steps[j - 1]);
    if Stores(states[j - 1], steps[j - 1]) {
      i := j - 1;
      NoClaimAfterStore(states, steps, i);
    } else {
      i := StoredResultIsLatest(states, steps, j - 1);
    }
  }

  lemma ResultIsCurrent(states: seq<System>, steps: seq<Step>, j: nat)
    requires IsRun(states, steps) && j < |states| && states[j].row.result.Some?
    ensures states[j].row.result.value.attempt == states[j].row.attemptCount && j > 0
  {
    RunKeepsInv(states, steps, j);
  }

  lemma NoClaimAfterStore(states: seq<System>, steps: seq<Step>, i: nat)
    requires IsRun(states, steps) && i < |steps| && Stores(states[i], steps[i])
    ensures NoClaimIn(states, steps, i, |steps|)
  {
    RunKeepsInv(states, steps, i);
    StepKeepsCourse(states[i], steps[i]);
    forall k | i <= k < |steps|
      ensures !Claims(states[k], steps[k])
    {
      if k > i {
        EndedStaysEnded(states, steps, i + 1, k);
      }
    }
  }

  /** No running row is stuck: once its lease has run out on the timer's clock, the timer
      puts it back for another attempt, whatever became of its worker. */
  lemma ExpiredRunsAreRecovered(states: seq<System>, steps: seq<Step>, i: nat, timer: nat, now: int)
    requires IsRun(states, steps) && i < |states| && states[i].row.status == Running
    ensures states[i].row.leaseUntil.Some?
    ensures now > states[i].row.leaseUntil.value ==>
              var seen := FindExpired(timer, now);
              && Enabled(states[i], seen)
              && Enabled(Apply(states[i], seen), Requeue(timer))
              && var row := Apply(Apply(states[i], seen), Requeue(timer)).row;
              && row.status == Retrying && row.owner == None && row.attemptCount == states[i].row.attemptCount
              && forall clock :: CanClaim(row, clock)
  {
    RunKeepsInv(states, steps, i);
  }

  /** The clock a step compares the lease with. */
  function ClockOf(s: System, step: Step): Option<int> {
    match step
    case Claim(_, now, _, _) => Some(now)
    case FindExpired(_, now) => Some(now)
    case Requeue(timer) => if timer in s.recoveries then Some(s.recoveries[timer]) else None
    case _ => None
  }

  /** The step is a finalise or a fail of this worker, or a cancellation. */
  predicate EndsRun(step: Step, w: nat) {
    step.WriteCancel? || (step.Finalise? && step.w == w) || (step.Fail? && step.w == w)
  }

  lemma LeaseProtectsStep(s: System, step: Step, w: nat)
    requires Inv(s) && Enabled(s, step) && s.row.status == Running && s.row.owner == Some(w) && !EndsRun(step, w)
    requires ClockOf(s, step).Some? ==>
               s.row.leaseUntil.Some? && ClockOf(s, step).value <= s.row.leaseUntil.value
    ensures var row := Apply(s, step).row;
            && row.status == Running && row.owner == Some(w) && row.attemptCount == s.row.attemptCount
            && (row.leaseUntil != s.row.leaseUntil ==> step.Heartbeat? && step.w == w)
  {
    if Actor(step).Some? {
      assert WorkerOk(s.row, step.w, PhaseOf(s, step.w));
    }
  }

  /** As long as no party's clock has passed the lease, a running row stays with its owner
      and in its attempt, until that owner ends it or somebody cancels. */
  lemma {:induction false} LeaseProtects(states: seq<System>, steps: seq<Step>, i: nat, j: nat, w: nat)
    requires IsRun(states, steps) && i <= j < |states|
    requires states[i].row.status == Running && states[i].row.owner == Some(w)
    requires forall k | i <= k < j :: !EndsRun(steps[k], w)
    requires forall k | i <= k < j && ClockOf(states[k], steps[k]).Some? ::
               && states[k].row.leaseUntil.Some?
               && ClockOf(states[k], steps[k]).value <= states[k].row.leaseUntil.value
    ensures states[j].row.status == Running && states[j].row.owner == Some(w)
    ensures states[j].row.attemptCount == states[i].row.attemptCount
  {
    hide Inv, Apply, Enabled, ClockOf, EndsRun;
    if i < j {
      LeaseProtects(states, steps, i, j - 1, w);
      RunKeepsInv(states, steps, j - 1);
      LeaseProtectsStep(states[j - 1], steps[j - 1], w);
    }
  }

  /** What becomes of an attempt that its owner gives up: after the last one the row has
      ended for good, and before, any worker can claim it on any clock. */
  lemma GivingUpRetriesUnlessFinal(states: seq<System>, steps: seq<Step>, i: nat, j: nat)
    requires IsRun(states, steps) && i < j < |states| && steps[i].Fail? && EndsAttempt(states[i], steps[i])
    ensures steps[i].finalAttempt ==>
              && states[i + 1].row.status == Failed
              && (j < |steps| ==> !EndsAttempt(states[j], steps[j]) && !Claims(states[j], steps[j]))
    ensures var row := states[i + 1].row; !steps[i].finalAttempt ==> forall now :: CanClaim(row, now)
  {
    assert states[i + 1] == Apply(states[i], steps[i]);
    if steps[i].finalAttempt {
      EndedStaysEnded(states, steps, i + 1, j);
    }
  }

  /** A user who looks at a live job and cancels at once: a running one is asked to stop, a
      waiting one has stopped, and from then on nobody claims or finishes it. */
  lemma CancelTakesEffect(states: seq<System>, steps: seq<Step>, i: nat, j: nat)
    requires IsRun(states, steps) && i + 1 < |steps| && i + 2 <= j < |states|
    requires steps[i].ReadForCancel? && steps[i + 1] == WriteCancel(steps[i].user)
    ensures states[i + 2].row.status == if states[i].row.status == Running then CancelRequested else Cancelled
    ensures IsCancelling(states[j].row.status)
    ensures j < |steps| ==> !EndsAttempt(states[j], steps[j]) && !Claims(states[j], steps[j])
  {
    assert states[i + 1] == Apply(states[i], steps[i]);
    assert Enabled(states[i + 1], steps[i + 1]) && states[i + 2] == Apply(states[i + 1], steps[i + 1]);
    CancellationIsFinal(states, steps, i + 2, j);
  }

  /** Exactly the jobs that have not ended and are not cancelled can be cancelled. */
  lemma CancellableIff(s: System, user: nat)
    ensures Enabled(s, ReadForCancel(user)) <==> IsLive(s.row.status) || s.row.status == CancelRequested
  {
  }

  /** Whatever happens from this state on, the row stays as it is, or is applied once and
      then stays so. */
  ghost predicate OnlyApplied(s: System) {
    forall states, steps | IsRunFrom(s, states, steps) :: RowOnlyApplied(s.row, states)
  }

  ghost predicate RowOnlyApplied(row: Row, states: seq<System>) {
    && (forall j | 0 <= j < |states| :: states[j].row in {row, AppliedVersion(row)})
    && forall j, k | 0 <= j < k < |states| && states[j].row == AppliedVersion(row) :: states[k].row == states[j].row
  }

  /** A finished row can only be applied, and an applied one never changes, exactly when no
      user is holding a cancellation that was decided on an earlier look at the row. */
  lemma FinishedRowOnlyAppliedIff(states: seq<System>, steps: seq<Step>, i: nat)
    requires IsRun(states, steps) && i < |states|
    requires states[i].row.status in OUTCOMES + {Applied}
    ensures OnlyApplied(states[i]) <==> states[i].cancels == map[]
  {
    hide Inv, Apply, Enabled, IsRunFrom, RowOnlyApplied;
    RunKeepsInv(states, steps, i);
    var s := states[i];
    if s.cancels == map[] {
      forall later: seq<System>, more: seq<Step> | IsRunFrom(s, later, more)
        ensures RowOnlyApplied(s.row, later)
      {
        QuietRunOnlyApplies(s, later, more);
      }
    } else {
      LateCancelChangesRow(s);
    }
  }

  lemma QuietRunOnlyApplies(s: System, states: seq<System>, steps: seq<Step>)
    requires Inv(s) && s.row.status in OUTCOMES + {Applied} && s.cancels == map[]
    requires IsRunFrom(s, states, steps)
    ensures RowOnlyApplied(s.row, states)
  {
    hide Inv, Apply, Enabled;
    forall j | 0 <= j < |states|
      ensures states[j].row in {s.row, AppliedVersion(s.row)}
    {
      QuietRun(s, states, steps, 0, j);
    }
    forall j, k | 0 <= j < k < |states| && states[j].row == AppliedVersion(s.row)
      ensures states[k].row == states[j].row
    {
      QuietRun(s, states, steps, 0, j);
      QuietRun(s, states, steps, j, k);
    }
  }

  lemma {:induction false} QuietRun(s: System, states: seq<System>, steps: seq<Step>, i: nat, j: nat)
    requires IsRunFrom(s, states, steps) && i <= j < |states|
    requires Inv(states[i]) && states[i].row.status in OUTCOMES + {Applied} && states[i].cancels == map[]
    ensures Inv(states[j]) && states[j].row.status in OUTCOMES + {Applied} && states[j].cancels == map[]
    ensures states[j].row in {states[i].row, AppliedVersion(states[i].row)}
  {
    hide Inv, Apply, Enabled;
    if i == j {
    } else {
      QuietRun(s, states, steps, i, j - 1);
      StepKeepsInv(states[j - 1], steps[j - 1]);
      QuietStepOnlyApplies(states[j - 1], steps[j - 1]);
    }
  }

  lemma QuietStepOnlyApplies(s: System, step: Step)
    requires Inv(s) && Enabled(s, step) && s.row.status in OUTCOMES + {Applied} && s.cancels == map[]
    ensures Apply(s, step).row == if step.ApplyResult? then AppliedVersion(s.row) else s.row
    ensures Apply(s, step).cancels == map[]
  {
    if Actor(step).Some? {
      assert WorkerOk(s.row, step.w, PhaseOf(s, step.w));
    }
  }

  lemma LateCancelChangesRow(s: System)
    requires s.row.status in OUTCOMES + {Applied} && s.cancels != map[]
    ensures !OnlyApplied(s)
  {
    var user :| user in s.cancels;
    var step := WriteCancel(user);
    var states := [s, Apply(s, step)];
    assert IsRunFrom(s, states, [step]);
    assert IsCancelling(states[1].row.status);
    assert !RowOnlyApplied(s.row, states);
  }

  /** Such a state is reached: a cancellation read while the job ran overwrites its success. */
  lemma LateCancelOverwritesSuccess() returns (states: seq<System>, steps: seq<Step>)
    ensures IsRun(states, steps) && |steps| == 6
    ensures states[5].row.status == Succeeded && states[6].row.status == CancelRequested
    ensures states[6].row.result == Some(Result(1, 1))
  {
    steps := [Fetch(1), Claim(1, 0, 300, true), ReadForCancel(2), CheckLatest(1), Finalise(1, Succeeded),
        WriteCancel(2)];
    states := SolvedWhileCancelling(steps[..5]);
    states := states + [Apply(states[5], steps[5])];
    assert steps[..5] + [steps[5]] == steps;
    OneStepMore(states[..6], steps[..5], steps[5]);
  }

  /** Worse, it can come after the result was applied: the trips exist, and the row says
      that the job is to be cancelled. */
  lemma LateCancelOverwritesApplied() returns (states: seq<System>, steps: seq<Step>)
    ensures IsRun(states, steps) && |steps| == 7
    ensures states[5].row.status == Succeeded && states[6].row.status == Applied
    ensures states[7].row.status == CancelRequested && states[7].row.result == Some(Result(1, 1))
  {
    var solved := [Fetch(1), Claim(1, 0, 300, true), ReadForCancel(2), CheckLatest(1), Finalise(1, Succeeded)];
    states := SolvedWhileCancelling(solved);
    var apply, cancel := ApplyResult(3), WriteCancel(2);
    OneStepMore(states, solved, apply);
    states := states + [Apply(states[5], apply)];
    OneStepMore(states, solved + [apply], cancel);
    states := states + [Apply(states[6], cancel)];
    steps := solved + [apply] + [cancel];
  }

  /** A user has read the row while it was running, and then the worker stores its result. */
  lemma SolvedWhileCancelling(steps: seq<Step>) returns (states: seq<System>)
    requires steps == [Fetch(1), Claim(1, 0, 300, true), ReadForCancel(2), CheckLatest(1), Finalise(1, Succeeded)]
    ensures IsRun(states, steps) && 2 in states[5].cancels && states[5].cancels[2] == Running
    ensures states[5].row.status == Succeeded && states[5].row.result == Some(Result(1, 1))
  {
    states := SolvedHalfway(steps[..3]);
    var s4 := Apply(states[3], steps[3]);
    var s5 := Apply(s4, steps[4]);
    OneStepMore(states, steps[..3], steps[3]);
    OneStepMore(states + [s4], steps[..3] + [steps[3]], steps[4]);
    states := states + [s4] + [s5];
    assert steps[..3] + [steps[3]] + [steps[4]] == steps;
  }

  lemma SolvedHalfway(steps: seq<Step>) returns (states: seq<System>)
    requires steps == [Fetch(1), Claim(1, 0, 300, true), ReadForCancel(2)]
    ensures IsRun(states, steps) && states[3].cancels == map[2 := Running]
    ensures states[3].workers == map[1 := Solving(1)] && states[3].row == Row(Running, Some(1), Some(300), 1, None)
  {
    var s1 := Apply(Initial(), steps[0]);
    var s2 := Apply(s1, steps[1]);
    assert s2.workers == map[1 := Solving(1)];
    states := [Initial(), s1, s2, Apply(s2, steps[2])];
  }

  lemma OneStepMore(states: seq<System>, steps: seq<Step>, step: Step)
    requires IsRun(states, steps) && Enabled(states[|steps|], step)
    ensures IsRun(states + [Apply(states[|steps|], step)], steps + [step])
  {
    hide Enabled, Apply, Initial;
    var longer, more := states + [Apply(states[|steps|], step)], steps + [step];
    forall i | 0 <= i < |more|
      ensures Enabled(longer[i], more[i]) && longer[i + 1] == Apply(longer[i], more[i])
    {
      if i < |steps| {
        assert longer[i] == states[i] && longer[i + 1] == states[i + 1] && more[i] == steps[i];
      }
    }
  }
}
