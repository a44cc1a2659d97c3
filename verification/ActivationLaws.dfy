// src/domain/activationService.ts: what one activation and one poll do, read off rows, catalog and log alone,
// and progress: a poll completes an open operation and delivers when a delivery is due.
module ActivationLaws {
  import opened Numbers
  import opened ActivationService
  import opened ActivationRuns

  // ---------------------------------------------------------------------
  // Polling
  // ---------------------------------------------------------------------

  predicate IsOpen(job: Job) {
    job.status == Submitted || job.status == Working
  }

  /** A delivery is due: completed or about to be, not yet delivered, under five attempts, past the backoff. */
  predicate Due(job: Job, gateAt: int) {
    && (job.status == Submitted || job.status == Working || job.status == Completed)
    && job.webhookUrl.Some? && job.webhookUrl.value != ""
    && !job.webhookFired
    && job.webhookAttempts < 5
    && (job.nextAttemptAt.None? || job.nextAttemptAt.value <= gateAt)
  }

  lemma PollFinds(w: World, opId: string, env: PollEnv, urlOk: string -> bool, i: nat)
    requires DistinctIds(w.jobs) && i < |w.jobs| && w.jobs[i].operationId == opId
    ensures var (after, result) := Poll(w, opId, env, urlOk);
            && result == PollResponse(w.jobs[i])
            && after.log == w.log + PollRow(w.jobs[i], env, urlOk).1
            && after.jobs == w.jobs[i := PollRow(w.jobs[i], env, urlOk).0]
            && after.catalog == w.catalog && after.proposals == w.proposals
  {
    RowIs(w.jobs, FindById(w.jobs, opId).value);
    hide PollResponse, AfterAttempt, AttemptOf, Delivers;
    assert w.jobs[i] in w.jobs;
  }

  /** An unknown id answers not found and changes nothing. */
  lemma PollUnknown(w: World, opId: string, env: PollEnv, urlOk: string -> bool)
    requires forall j :: j in w.jobs ==> j.operationId != opId
    ensures Poll(w, opId, env, urlOk) == (w, TaskNotFound)
  {}

  /** A poll touches no row but the polled one, and nothing of that row but its status and delivery fields. */
  lemma PollTouches(w: World, opId: string, env: PollEnv, urlOk: string -> bool, i: nat, k: nat)
    requires DistinctIds(w.jobs) && i < |w.jobs| && w.jobs[i].operationId == opId && k < |w.jobs|
    ensures var after := Poll(w, opId, env, urlOk).0;
            |after.jobs| == |w.jobs| && (k != i ==> after.jobs[k] == w.jobs[k]) && SameCore(w.jobs[k], after.jobs[k])
  {
    PollFinds(w, opId, env, urlOk, i);
  }

  /** An open operation is completed by the poll, which answers with the segment id. */
  lemma PollCompletes(w: World, opId: string, env: PollEnv, urlOk: string -> bool, i: nat)
    requires DistinctIds(w.jobs) && i < |w.jobs| && w.jobs[i].operationId == opId && IsOpen(w.jobs[i])
    ensures var (after, result) := Poll(w, opId, env, urlOk);
            && result == Operation(opId, Completed, Some(w.jobs[i].destination + "_" + w.jobs[i].signalId), w.jobs[i].submittedAt)
            && |after.jobs| == |w.jobs| && after.jobs[i].status == Completed
  {
    PollFinds(w, opId, env, urlOk, i);
  }

  /** Any other operation keeps its status, and only a completed one answers with the segment id. */
  lemma PollKeepsStatus(w: World, opId: string, env: PollEnv, urlOk: string -> bool, i: nat)
    requires DistinctIds(w.jobs) && i < |w.jobs| && w.jobs[i].operationId == opId && !IsOpen(w.jobs[i])
    ensures var (after, result) := Poll(w, opId, env, urlOk);
            && |after.jobs| == |w.jobs| && after.jobs[i].status == w.jobs[i].status
            && result == Operation(opId, w.jobs[i].status,
                 if w.jobs[i].status == Completed then Some(w.jobs[i].destination + "_" + w.jobs[i].signalId) else None,
                 w.jobs[i].submittedAt)
  {
    PollFinds(w, opId, env, urlOk, i);
  }

  /** A due delivery to a usable URL is attempted once, and recorded for what it was. */
  lemma PollDelivers(w: World, opId: string, env: PollEnv, urlOk: string -> bool, i: nat)
    requires DistinctIds(w.jobs) && i < |w.jobs| && w.jobs[i].operationId == opId
    requires Due(w.jobs[i], env.gateAt) && urlOk(w.jobs[i].webhookUrl.value)
    ensures var (log, job) := (Poll(w, opId, env, urlOk).0.log, w.jobs[i]);
            && |log| == |w.log| + 1 && log[..|w.log|] == w.log
            && var a := log[|w.log|];
               && a.operationId == opId && a.url == job.webhookUrl.value && a.number == job.webhookAttempts + 1
               && a.startedAt == env.startAt
               && (a.sent <==> env.signing != KeyFails) && (a.signed <==> env.signing == KeySigns)
               && (a.keyPresent <==> env.signing != NoKey)
               && (a.accepted <==> a.sent && env.answer.HttpStatus? && 200 <= env.answer.code <= 299)
  {
    PollFinds(w, opId, env, urlOk, i);
    hide AfterAttempt;
  }

  function BackoffMs(attempt: nat): int {
    if attempt == 1 then 30_000
    else if attempt == 2 then 120_000
    else if attempt == 3 then 480_000
    else 1_920_000
  }

  /** The row after that attempt: delivered for good if accepted, else the next time or, after the fifth, none. */
  lemma PollRecords(w: World, opId: string, env: PollEnv, urlOk: string -> bool, i: nat)
    requires DistinctIds(w.jobs) && i < |w.jobs| && w.jobs[i].operationId == opId
    requires Due(w.jobs[i], env.gateAt) && urlOk(w.jobs[i].webhookUrl.value)
    ensures var (jobs, n) := (Poll(w, opId, env, urlOk).0.jobs, w.jobs[i].webhookAttempts + 1);
            var accepted := env.signing != KeyFails && env.answer.HttpStatus? && 200 <= env.answer.code <= 299;
            && |jobs| == |w.jobs|
            && jobs[i].webhookFired == accepted && jobs[i].webhookAttempts == n
            && jobs[i].nextAttemptAt == if accepted || n == 5 then None else Some(env.doneAt + BackoffMs(n))
  {
    PollFinds(w, opId, env, urlOk, i);
    Backoffs();
    hide Power4, BackoffSeconds;
  }

  lemma Backoffs()
    ensures BackoffSeconds(1) == 30 && BackoffSeconds(2) == 120 && BackoffSeconds(3) == 480 && BackoffSeconds(4) == 1920
  {
    assert Power4(1) == 4 && Power4(2) == 16;
    assert Power4(3) == 4 * Power4(2);
  }

  /** Otherwise nothing goes out; a due delivery to an unusable URL is marked as done, nothing else is. */
  lemma PollSilent(w: World, opId: string, env: PollEnv, urlOk: string -> bool, i: nat)
    requires DistinctIds(w.jobs) && i < |w.jobs| && w.jobs[i].operationId == opId
    requires !Due(w.jobs[i], env.gateAt) || !urlOk(w.jobs[i].webhookUrl.value)
    ensures var (after, job) := (Poll(w, opId, env, urlOk).0, w.jobs[i]);
            && after.log == w.log && |after.jobs| == |w.jobs|
            && after.jobs[i].webhookFired == (job.webhookFired || Due(job, env.gateAt))
            && after.jobs[i].webhookAttempts == job.webhookAttempts && after.jobs[i].nextAttemptAt == job.nextAttemptAt
  {
    PollFinds(w, opId, env, urlOk, i);
    assert w.log + [] == w.log;
  }

  // ---------------------------------------------------------------------
  // Progress over runs
  // ---------------------------------------------------------------------

  /** After any run, a poll of an open operation completes it, and delivers once if a delivery is due. */
  lemma PollProgress(w: World, calls: seq<Call>, urlOk: string -> bool, i: nat, env: PollEnv)
    requires Start(w) && FreshIds(calls) && i < |Run(w, calls, urlOk).jobs|
    ensures var before := Run(w, calls, urlOk);
            var (job, after) := (before.jobs[i], Poll(before, before.jobs[i].operationId, env, urlOk));
            && (IsOpen(job) ==>
                  && after.1 == Operation(job.operationId, Completed, Some(job.destination + "_" + job.signalId), job.submittedAt)
                  && |after.0.jobs| == |before.jobs| && after.0.jobs[i].status == Completed)
            && (Due(job, env.gateAt) && urlOk(job.webhookUrl.value) ==>
                  && |after.0.log| == |before.log| + 1
                  && after.0.log[|before.log|].operationId == job.operationId
                  && after.0.log[|before.log|].url == job.webhookUrl.value)
            && (job.status == Failed || job.status == Canceled || job.status == Rejected ==>
                  after.0.log == before.log && |after.0.jobs| == |before.jobs| && after.0.jobs[i].status == job.status)
  {
    RunRows(w, calls, urlOk, "");
    var before := Run(w, calls, urlOk);
    var job := before.jobs[i];
    hide Run, Poll;
    if IsOpen(job) {
      PollCompletes(before, job.operationId, env, urlOk, i);
    } else {
      PollKeepsStatus(before, job.operationId, env, urlOk, i);
    }
    if Due(job, env.gateAt) && urlOk(job.webhookUrl.value) {
      PollDelivers(before, job.operationId, env, urlOk, i);
    } else {
      PollSilent(before, job.operationId, env, urlOk, i);
    }
  }

  /** The first poll after an accepted submission with a usable URL completes the operation and delivers:
      for good, if the receiver accepts. */
  lemma FirstPollDelivers(w: World, calls: seq<Call>, c: Call, urlOk: string -> bool, env: PollEnv)
    requires Start(w) && c.DoActivate? && FreshIds(calls + [c])
    requires ReachesKeyCheck(Run(w, calls, urlOk), c.req) && Earlier(Run(w, calls, urlOk).jobs, c.req).None?
    requires NonEmpty(c.req.webhookUrl).Some? && urlOk(c.req.webhookUrl.value)
    ensures var before := Run(w, calls + [c], urlOk);
            var (after, result) := Poll(before, c.opId, env, urlOk);
            && result == Operation(c.opId, Completed, Some(c.req.destination + "_" + c.req.signalId), c.now)
            && |after.log| == |before.log| + 1
            && after.log[|before.log|].operationId == c.opId && after.log[|before.log|].url == c.req.webhookUrl.value
            && exists i :: 0 <= i < |after.jobs| && after.jobs[i].operationId == c.opId && after.jobs[i].status == Completed
                 && after.jobs[i].webhookFired == (env.signing != KeyFails && env.answer.HttpStatus? && 200 <= env.answer.code <= 299)
  {
    var earlier, before := Run(w, calls, urlOk), Run(w, calls + [c], urlOk);
    RunPrefix(w, calls, c, urlOk);
    RunRows(w, calls + [c], urlOk, "");
    ActivateNew(earlier, c.req, c.opId, c.now);
    var i := |earlier.jobs|;
    assert before.jobs[i] == NewJob(c.req, c.opId, c.now);
    hide Run, Poll, Activate, Step, ReachesKeyCheck;
    PollCompletes(before, c.opId, env, urlOk, i);
    PollDelivers(before, c.opId, env, urlOk, i);
    PollRecords(before, c.opId, env, urlOk, i);
    PollTouches(before, c.opId, env, urlOk, i, i);
  }

  // ---------------------------------------------------------------------
  // Activation
  // ---------------------------------------------------------------------

  /** Where a signal comes from: the catalog first, then the request's own data, then the proposal cache. */
  lemma ResolveOrder(w: World, req: Request)
    ensures var (signal, after, id) := (Resolve(w, req).signal, Resolve(w, req).world, req.signalId);
            && after.jobs == w.jobs && after.log == w.log
            && (id in w.catalog ==> signal == Some(w.catalog[id]) && after == w)
            && (id !in w.catalog && req.proposalData.Some? ==>
                  && signal == req.proposalData && after.proposals == w.proposals
                  && req.proposalData.value.signalId in after.catalog
                  && (req.proposalData.value.signalId !in w.catalog ==>
                        after.catalog[req.proposalData.value.signalId] == req.proposalData.value))
            && (id !in w.catalog && req.proposalData.None? && id in w.proposals ==>
                  && signal == Some(w.proposals[id]) && id !in after.proposals && w.proposals[id].signalId in after.catalog
                  && (w.proposals[id].signalId !in w.catalog ==> after.catalog[w.proposals[id].signalId] == w.proposals[id])
                  && forall other :: other in w.proposals && other != id ==> other in after.proposals && after.proposals[other] == w.proposals[other])
            && (id !in w.catalog && req.proposalData.None? && id !in w.proposals ==> signal == None && after == w)
            && forall known :: known in w.catalog ==> known in after.catalog && after.catalog[known] == w.catalog[known]
  {}

  /** A request without any signal, or with one that cannot be activated, adds no row. */
  lemma ActivateRefused(w: World, req: Request, opId: string, now: int)
    requires var s := Resolve(w, req).signal; s.None? || !s.value.activationSupported
    ensures Activate(w, req, opId, now).1 == if Resolve(w, req).signal.None? then NotFound else NotSupported
    ensures Activate(w, req, opId, now).0.jobs == w.jobs
  {}

  lemma ReachesMeans(w: World, req: Request)
    ensures ReachesKeyCheck(w, req) <==> Resolve(w, req).signal.Some? && Resolve(w, req).signal.value.activationSupported
  {}

  /** A fresh request is answered as pending under the new id, and leaves a row that nothing has happened to. */
  lemma ActivateNew(w: World, req: Request, opId: string, now: int)
    requires ReachesKeyCheck(w, req)
    requires req.idempotencyKey.Some? && req.idempotencyKey.value != "" ==>
               forall j :: j in w.jobs ==> j.idempotencyKey != req.idempotencyKey
    ensures var (after, outcome) := Activate(w, req, opId, now);
            && outcome == Accepted(opId, Pending, if req.webhookUrl == Some("") then None else req.webhookUrl, now)
            && after.log == w.log && |after.jobs| == |w.jobs| + 1 && after.jobs[..|w.jobs|] == w.jobs
            && var row := after.jobs[|w.jobs|];
               && row.operationId == opId && row.signalId == req.signalId && row.destination == req.destination
               && row.submittedAt == now && row.webhookUrl == req.webhookUrl && row.idempotencyKey == req.idempotencyKey
               && row.requestFingerprint == req.requestFingerprint && row.status == Submitted
               && !row.webhookFired && row.webhookAttempts == 0 && row.nextAttemptAt == None
  {
    assert Earlier(w.jobs, req) == None by {
      if req.idempotencyKey.Some? {
        hide NewJob, Resolve;
        var found := FindByKey(w.jobs, req.idempotencyKey.value);
      }
    }
  }

  /** The request's body is the one of the row: by fingerprint when both have one, else by signal and destination. */
  ghost predicate SameBody(row: Job, req: Request) {
    if row.requestFingerprint.Some? && row.requestFingerprint.value != ""
       && req.requestFingerprint.Some? && req.requestFingerprint.value != ""
    then row.requestFingerprint == req.requestFingerprint
    else row.signalId == req.signalId && row.destination == req.destination
  }

  /** A key that the table knows: the row's own answer if the body is the same, the conflict otherwise. */
  lemma ActivateKnownKey(w: World, req: Request, opId: string, now: int, row: Job)
    requires ReachesKeyCheck(w, req) && row in w.jobs && row.idempotencyKey == req.idempotencyKey
    requires req.idempotencyKey.Some? && req.idempotencyKey.value != "" && OneRowPerKey(w.jobs, req.idempotencyKey.value)
    ensures Activate(w, req, opId, now).0.jobs == w.jobs
    ensures !SameBody(row, req) ==> Activate(w, req, opId, now).1 == IdempotencyConflict(row.operationId)
    ensures SameBody(row, req) ==>
              var outcome := Activate(w, req, opId, now).1;
              && outcome.Accepted? && outcome.taskId == row.operationId && outcome.submittedAt == row.submittedAt
              && outcome.webhookUrl == (if row.webhookUrl == Some("") then None else row.webhookUrl)
              && (outcome.status == Pending <==> row.status == Submitted)
              && (outcome.status == Processing <==> row.status == Working)
              && (outcome.status == RespCompleted <==> row.status == Completed)
  {
    var key := req.idempotencyKey.value;
    var found := FindByKey(w.jobs, key);
    var i :| 0 <= i < |w.jobs| && w.jobs[i] == row;
    var k :| 0 <= k < |w.jobs| && w.jobs[k] == found.value;
    assert k == i;
    hide FindByKey, Resolve, NewJob;
    assert Earlier(w.jobs, req) == found;
  }
}
