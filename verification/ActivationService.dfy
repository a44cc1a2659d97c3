// src/domain/activationService.ts and src/storage/activationRepo.ts: idempotent activation,
// lazy status advance on poll and bounded webhook retry.  Times are milliseconds.
module ActivationService {
  import opened Numbers

  const MAX_WEBHOOK_ATTEMPTS: nat := 5

  datatype Status = Submitted | Working | Completed | Failed | Canceled | Rejected

  /** A catalog signal, as far as activation looks at it. */
  datatype SignalRecord = SignalRecord(signalId: string, activationSupported: bool)

  /** A row of activation_jobs. */
  datatype Job = Job(
    operationId: string,
    signalId: string,
    destination: string,
    submittedAt: int,
    webhookUrl: Option<string>,
    idempotencyKey: Option<string>,
    requestFingerprint: Option<string>,
    status: Status,
    webhookFired: bool,
    webhookAttempts: nat,
    nextAttemptAt: Option<int>)

  datatype Request = Request(
    signalId: string,
    destination: string,
    proposalData: Option<SignalRecord>,
    webhookUrl: Option<string>,
    idempotencyKey: Option<string>,
    requestFingerprint: Option<string>)

  datatype ResponseStatus = Pending | Processing | RespCompleted | RespFailed

  datatype Outcome =
    | NotFound
    | NotSupported
    | IdempotencyConflict(originalOperationId: string)
    | Accepted(taskId: string, status: ResponseStatus, webhookUrl: Option<string>, submittedAt: int)

  /** What the outside world does during one poll: the clock when the backoff window is looked at, when
      the delivery starts and when it is over; the signing key; and the receiver's answer. */
  datatype Signing = NoKey | KeySigns | KeyFails
  datatype Answer = HttpStatus(code: int) | NetworkError
  datatype PollEnv = PollEnv(gateAt: int, startAt: int, doneAt: int, signing: Signing, answer: Answer)

  /** A delivery attempt as an observer sees it; nothing goes on the wire when signing fails. */
  datatype Attempt = Attempt(
    operationId: string,
    url: string,
    number: nat,
    startedAt: int,
    sent: bool,
    signed: bool,
    keyPresent: bool,
    accepted: bool)

  datatype World = World(
    jobs: seq<Job>,
    catalog: map<string, SignalRecord>,
    proposals: map<string, SignalRecord>,
    log: seq<Attempt>)

  /** An absent or empty string counts as not given. */
  function NonEmpty(s: Option<string>): Option<string> {
    if s.Some? && s.value == "" then None else s
  }

  // ---------------------------------------------------------------------
  // Rows
  // ---------------------------------------------------------------------

  function FindById(jobs: seq<Job>, id: string): (r: Option<Job>)
    ensures r.Some? ==> r.value in jobs && r.value.operationId == id
    ensures r.None? ==> forall j :: j in jobs ==> j.operationId != id
  {
    if jobs == [] then None
    else if jobs[|jobs| - 1].operationId == id then Some(jobs[|jobs| - 1])
    else FindById(jobs[..|jobs| - 1], id)
  }

  /** The row of a key, the earliest submitted if there were several. */
  function FindByKey(jobs: seq<Job>, key: string): (r: Option<Job>)
    ensures r.Some? ==> r.value in jobs && r.value.idempotencyKey == Some(key)
    ensures r.Some? ==> forall j :: j in jobs && j.idempotencyKey == Some(key) ==> r.value.submittedAt <= j.submittedAt
    ensures r.None? ==> forall j :: j in jobs ==> j.idempotencyKey != Some(key)
  {
    if jobs == [] then None
    else
      var before, last := FindByKey(jobs[..|jobs| - 1], key), jobs[|jobs| - 1];
      if last.idempotencyKey == Some(key) && (before.None? || last.submittedAt < before.value.submittedAt) then Some(last)
      else before
  }

  ghost predicate DistinctIds(jobs: seq<Job>) {
    forall i, j :: 0 <= i < j < |jobs| ==> jobs[i].operationId != jobs[j].operationId
  }

  /** Replaces the row with job's operation id. */
  function Replace(jobs: seq<Job>, job: Job): (r: seq<Job>)
    ensures |r| == |jobs|
    ensures forall i :: 0 <= i < |jobs| ==> r[i] == if jobs[i].operationId == job.operationId then job else jobs[i]
  {
    seq(|jobs|, i requires 0 <= i < |jobs| => if jobs[i].operationId == job.operationId then job else jobs[i])
  }

  // ---------------------------------------------------------------------
  // Activation
  // ---------------------------------------------------------------------

  /** Insert; on conflict the columns modelled here keep their values. */
  function Upsert(catalog: map<string, SignalRecord>, s: SignalRecord): map<string, SignalRecord> {
    if s.signalId in catalog then catalog else catalog[s.signalId := s]
  }

  datatype Resolved = Resolved(signal: Option<SignalRecord>, world: World)

  /** Catalog, then data in the request, then the proposal cache (promoted and evicted). */
  function Resolve(w: World, req: Request): Resolved {
    if req.signalId in w.catalog then Resolved(Some(w.catalog[req.signalId]), w)
    else if req.proposalData.Some? then
      Resolved(req.proposalData, w.(catalog := Upsert(w.catalog, req.proposalData.value)))
    else if req.signalId in w.proposals then
      var s := w.proposals[req.signalId];
      Resolved(Some(s), w.(catalog := Upsert(w.catalog, s), proposals := w.proposals - {req.signalId}))
    else Resolved(None, w)
  }

  /** The request gets as far as the idempotency check. */
  predicate ReachesKeyCheck(w: World, req: Request) {
    var s := Resolve(w, req).signal;
    s.Some? && s.value.activationSupported
  }

  function BodyMatches(existing: Job, req: Request): bool {
    var a, b := NonEmpty(existing.requestFingerprint), NonEmpty(req.requestFingerprint);
    if a.Some? && b.Some? then a == b
    else existing.signalId == req.signalId && existing.destination == req.destination
  }

  function ToResponse(s: Status): ResponseStatus {
    match s
    case Submitted => Pending
    case Working => Processing
    case Completed => RespCompleted
    case _ => RespFailed
  }

  function NewJob(req: Request, opId: string, now: int): Job {
    Job(opId, req.signalId, req.destination, now, req.webhookUrl, req.idempotencyKey, req.requestFingerprint,
        Submitted, false, 0, None)
  }

  /** The row an earlier request with the same non-empty key left behind. */
  function Earlier(jobs: seq<Job>, req: Request): Option<Job> {
    var key := NonEmpty(req.idempotencyKey);
    if key.Some? then FindByKey(jobs, key.value) else None
  }

  function Activate(w: World, req: Request, opId: string, now: int): (World, Outcome) {
    var r := Resolve(w, req);
    if r.signal.None? then (r.world, NotFound)
    else if !r.signal.value.activationSupported then (r.world, NotSupported)
    else
      match Earlier(w.jobs, req)
      case Some(existing) =>
        if BodyMatches(existing, req) then
          (r.world, Accepted(existing.operationId, ToResponse(existing.status), NonEmpty(existing.webhookUrl), existing.submittedAt))
        else (r.world, IdempotencyConflict(existing.operationId))
      case None =>
        (r.world.(jobs := w.jobs + [NewJob(req, opId, now)]), Accepted(opId, Pending, NonEmpty(req.webhookUrl), now))
  }

  // ---------------------------------------------------------------------
  // Polling
  // ---------------------------------------------------------------------

  function Power4(n: nat): nat {
    if n == 0 then 1 else 4 * Power4(n - 1)
  }

  /** Seconds to wait after the n-th attempt: 30, 120, 480, 1920. */
  function BackoffSeconds(attemptsCompleted: nat): nat
    requires attemptsCompleted >= 1
  {
    30 * Power4(attemptsCompleted - 1)
  }

  predicate IsPastBackoffWindow(next: Option<int>, now: int) {
    next.None? || now >= next.value
  }

  predicate IsOk(a: Answer) {
    a.HttpStatus? && 200 <= a.code <= 299
  }

  function AdvanceStatus(s: Status): Status {
    if s == Submitted || s == Working then Completed else s
  }

  /** A poll of this (already advanced) row delivers. */
  predicate Delivers(job: Job, env: PollEnv) {
    && job.status == Completed
    && NonEmpty(job.webhookUrl).Some?
    && !job.webhookFired
    && job.webhookAttempts < MAX_WEBHOOK_ATTEMPTS
    && IsPastBackoffWindow(job.nextAttemptAt, env.gateAt)
  }

  function NextAttempt(attempt: nat, doneAt: int): Option<int>
    requires attempt >= 1
  {
    if attempt >= MAX_WEBHOOK_ATTEMPTS then None else Some(doneAt + BackoffSeconds(attempt) * 1000)
  }

  predicate Delivered(env: PollEnv) {
    env.signing != KeyFails && IsOk(env.answer)
  }

  /** The row after a delivery attempt to a usable URL. */
  function AfterAttempt(job: Job, env: PollEnv): Job {
    var n := job.webhookAttempts + 1;
    if Delivered(env) then job.(webhookFired := true, webhookAttempts := n, nextAttemptAt := None)
    else job.(webhookAttempts := n, nextAttemptAt := NextAttempt(n, env.doneAt))
  }

  function AttemptOf(job: Job, env: PollEnv): Attempt
    requires job.webhookUrl.Some?
  {
    Attempt(job.operationId, job.webhookUrl.value, job.webhookAttempts + 1, env.startAt,
            env.signing != KeyFails, env.signing == KeySigns, env.signing != NoKey, Delivered(env))
  }

  /** A row after a poll, and the attempts made. */
  function PollRow(job: Job, env: PollEnv, urlOk: string -> bool): (Job, seq<Attempt>) {
    var advanced := job.(status := AdvanceStatus(job.status));
    if !Delivers(advanced, env) then (advanced, [])
    else if !urlOk(advanced.webhookUrl.value) then (advanced.(webhookFired := true), [])
    else (AfterAttempt(advanced, env), [AttemptOf(advanced, env)])
  }

  datatype PollResult = TaskNotFound | Operation(taskId: string, status: Status, platformSegmentId: Option<string>, submittedAt: int)

  function PollResponse(job: Job): PollResult {
    var status := AdvanceStatus(job.status);
    Operation(job.operationId, status, if status == Completed then Some(job.destination + "_" + job.signalId) else None, job.submittedAt)
  }

  function Poll(w: World, opId: string, env: PollEnv, urlOk: string -> bool): (World, PollResult) {
    match FindById(w.jobs, opId)
    case None => (w, TaskNotFound)
    case Some(job) =>
      var (after, attempts) := PollRow(job, env, urlOk);
      (w.(jobs := Replace(w.jobs, after), log := w.log + attempts), PollResponse(job))
  }

  // ---------------------------------------------------------------------
  // The service
  // ---------------------------------------------------------------------

  class Service {
    var jobs: seq<Job>
    var catalog: map<string, SignalRecord>
    var proposals: map<string, SignalRecord>
    ghost var log: seq<Attempt>
    const urlOk: string -> bool

    constructor (catalog: map<string, SignalRecord>, proposals: map<string, SignalRecord>, urlOk: string -> bool)
      ensures Valid() && State() == World([], catalog, proposals, []) && this.urlOk == urlOk
    {
      this.catalog, this.proposals, this.urlOk := catalog, proposals, urlOk;
      jobs, log := [], [];
    }

    ghost predicate Valid()
      reads this
    {
      DistinctIds(jobs)
    }

    ghost function State(): World
      reads this
    {
      World(jobs, catalog, proposals, log)
    }

    /** opId is the freshly generated operation id. */
    method ActivateSignal(req: Request, opId: string, now: int) returns (outcome: Outcome)
      requires Valid() && forall j :: j in jobs ==> j.operationId != opId
      modifies this
      ensures Valid()
      ensures (State(), outcome) == Activate(old(State()), req, opId, now)
    {
      var signal: SignalRecord;
      if req.signalId in catalog {
        signal := catalog[req.signalId];
      } else if req.proposalData.Some? {
        signal := req.proposalData.value;
        catalog := Upsert(catalog, signal);
      } else if req.signalId in proposals {
        signal := proposals[req.signalId];
        catalog := Upsert(catalog, signal);
        proposals := proposals - {req.signalId};
      } else {
        return NotFound;
      }
      if !signal.activationSupported {
        return NotSupported;
      }
      if req.idempotencyKey.Some? && req.idempotencyKey.value != "" {
        var found := FindByKey(jobs, req.idempotencyKey.value);
        if found.Some? {
          var existing := found.value;
          if !BodyMatches(existing, req) {
            return IdempotencyConflict(existing.operationId);
          }
          return Accepted(existing.operationId, ToResponse(existing.status), NonEmpty(existing.webhookUrl), existing.submittedAt);
        }
      }
      jobs := jobs + [NewJob(req, opId, now)];
      return Accepted(opId, Pending, NonEmpty(req.webhookUrl), now);
    }

    method UpdateJobStatus(ghost job: Job, opId: string, status: Status)
      requires Valid() && job in jobs && job.operationId == opId
      modifies this`jobs
      ensures Valid() && jobs == Replace(old(jobs), job.(status := status)) && job.(status := status) in jobs
    {
      RowIs(jobs, job);
      jobs := seq(|jobs|, i requires 0 <= i < |jobs| reads this => if jobs[i].operationId == opId then jobs[i].(status := status) else jobs[i]);
    }

    method MarkWebhookFired(ghost job: Job, opId: string)
      requires Valid() && job in jobs && job.operationId == opId
      modifies this`jobs
      ensures Valid() && jobs == Replace(old(jobs), job.(webhookFired := true)) && job.(webhookFired := true) in jobs
    {
      RowIs(jobs, job);
      jobs := seq(|jobs|, i requires 0 <= i < |jobs| reads this => if jobs[i].operationId == opId then jobs[i].(webhookFired := true) else jobs[i]);
    }

    method RecordWebhookAttempt(ghost job: Job, opId: string, attempts: nat, next: Option<int>)
      requires Valid() && job in jobs && job.operationId == opId
      modifies this`jobs
      ensures Valid() && jobs == Replace(old(jobs), job.(webhookAttempts := attempts, nextAttemptAt := next))
    {
      RowIs(jobs, job);
      jobs := seq(|jobs|, i requires 0 <= i < |jobs| reads this =>
        if jobs[i].operationId == opId then jobs[i].(webhookAttempts := attempts, nextAttemptAt := next) else jobs[i]);
    }

    method FireWebhook(job: Job, env: PollEnv)
      requires Valid() && job in jobs && Delivers(job, env)
      modifies this`jobs, this`log
      ensures Valid()
      ensures jobs == Replace(old(jobs), if urlOk(job.webhookUrl.value) then AfterAttempt(job, env) else job.(webhookFired := true))
      ensures log == old(log) + if urlOk(job.webhookUrl.value) then [AttemptOf(job, env)] else []
    {
      var url := job.webhookUrl.value;
      if !urlOk(url) {
        MarkWebhookFired(job, job.operationId);
        return;
      }
      var attemptNumber := job.webhookAttempts + 1;
      log := log + [AttemptOf(job, env)];
      if env.signing != KeyFails && IsOk(env.answer) {
        MarkWebhookFired(job, job.operationId);
        RecordWebhookAttempt(job.(webhookFired := true), job.operationId, attemptNumber, None);
        ReplaceTwice(old(jobs), job.(webhookFired := true), AfterAttempt(job, env));
      } else {
        var exhausted := attemptNumber >= MAX_WEBHOOK_ATTEMPTS;
        var next := if exhausted then None else Some(env.doneAt + BackoffSeconds(attemptNumber) * 1000);
        RecordWebhookAttempt(job, job.operationId, attemptNumber, next);
      }
    }

    method GetOperation(opId: string, env: PollEnv) returns (result: PollResult)
      requires Valid()
      modifies this`jobs, this`log
      ensures Valid()
      ensures (State(), result) == Poll(old(State()), opId, env, urlOk)
    {
      var found := FindById(jobs, opId);
      if found.None? {
        return TaskNotFound;
      }
      var operation := found.value;
      ghost var row := operation;
      var currentStatus := operation.status;
      ReplaceSame(jobs, row);
      if currentStatus == Submitted {
        UpdateJobStatus(row, opId, Working);
        row := row.(status := Working);
        currentStatus := Working;
      }
      if currentStatus == Working {
        label L:
        UpdateJobStatus(row, opId, Completed);
        ReplaceTwice(old(jobs), row, row.(status := Completed));
        row := row.(status := Completed);
        currentStatus := Completed;
      }
      var advanced := operation.(status := currentStatus);
      assert old(log) + [] == old(log);
      assert row == advanced && jobs == Replace(old(jobs), row) && row in jobs;
      if Delivers(advanced, env) {
        FireWebhook(advanced, env);
        ReplaceTwice(old(jobs), advanced, PollRow(operation, env, urlOk).0);
      }
      result := Operation(
        opId, currentStatus,
        if currentStatus == Completed then Some(operation.destination + "_" + operation.signalId) else None,
        operation.submittedAt);
    }
  }

  lemma RowIs(jobs: seq<Job>, job: Job)
    requires DistinctIds(jobs) && job in jobs
    ensures forall i :: 0 <= i < |jobs| && jobs[i].operationId == job.operationId ==> jobs[i] == job
  {}

  lemma ReplaceTwice(jobs: seq<Job>, a: Job, b: Job)
    requires a.operationId == b.operationId
    ensures Replace(Replace(jobs, a), b) == Replace(jobs, b)
  {}

  lemma ReplaceSame(jobs: seq<Job>, job: Job)
    requires DistinctIds(jobs) && job in jobs
    ensures Replace(jobs, job) == jobs
  {
    RowIs(jobs, job);
  }
}
