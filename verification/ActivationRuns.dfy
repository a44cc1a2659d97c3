// Properties of every sequence of activation and poll calls, taken one at a time, with any
// receiver, any signing outcome and any request.
module ActivationRuns {
  import opened Numbers
  import opened ActivationService

  datatype Call = DoActivate(req: Request, opId: string, now: int) | DoPoll(opId: string, env: PollEnv)

  function Step(w: World, c: Call, urlOk: string -> bool): World {
    match c
    case DoActivate(req, opId, now) => Activate(w, req, opId, now).0
    case DoPoll(opId, env) => Poll(w, opId, env, urlOk).0
  }

  function Run(w: World, calls: seq<Call>, urlOk: string -> bool): World {
    if calls == [] then w else Step(Run(w, calls[..|calls| - 1], urlOk), calls[|calls| - 1], urlOk)
  }

  /** A store before its first activation; catalog and proposals are arbitrary. */
  ghost predicate Start(w: World) {
    w.jobs == [] && w.log == []
  }

  /** Generated operation ids do not repeat. */
  ghost predicate FreshIds(calls: seq<Call>) {
    forall i, j :: 0 <= i < j < |calls| && calls[i].DoActivate? && calls[j].DoActivate? ==> calls[i].opId != calls[j].opId
  }

  /** Within one poll the clock does not go back; nothing is asked of it between polls. */
  ghost predicate ClockOk(c: Call) {
    c.DoPoll? ==> c.env.gateAt <= c.env.startAt <= c.env.doneAt
  }

  ghost predicate ClocksOk(calls: seq<Call>) {
    forall i :: 0 <= i < |calls| ==> ClockOk(calls[i])
  }

  lemma DropLast(calls: seq<Call>)
    requires calls != [] && FreshIds(calls)
    ensures FreshIds(calls[..|calls| - 1])
    ensures ClocksOk(calls) ==> ClocksOk(calls[..|calls| - 1]) && ClockOk(calls[|calls| - 1])
  {}

  // ---------------------------------------------------------------------
  // Row identity
  // ---------------------------------------------------------------------

  /** What no poll ever changes in a row. */
  ghost predicate SameCore(a: Job, b: Job) {
    && a.operationId == b.operationId && a.signalId == b.signalId && a.destination == b.destination
    && a.submittedAt == b.submittedAt && a.webhookUrl == b.webhookUrl
    && a.idempotencyKey == b.idempotencyKey && a.requestFingerprint == b.requestFingerprint
  }

  ghost predicate SameCores(a: seq<Job>, b: seq<Job>) {
    |a| == |b| && forall i :: 0 <= i < |a| ==> SameCore(a[i], b[i])
  }

  ghost predicate OneRowPerKey(jobs: seq<Job>, key: string) {
    forall i, j :: 0 <= i < j < |jobs| && jobs[i].idempotencyKey == Some(key) ==> jobs[j].idempotencyKey != Some(key)
  }

  lemma PollKeepsCores(w: World, opId: string, env: PollEnv, urlOk: string -> bool)
    requires DistinctIds(w.jobs)
    ensures SameCores(w.jobs, Poll(w, opId, env, urlOk).0.jobs)
  {
    var found := FindById(w.jobs, opId);
    if found.Some? {
      RowIs(w.jobs, found.value);
    }
  }

  lemma CoresCarry(a: seq<Job>, b: seq<Job>, key: string)
    requires SameCores(a, b) && DistinctIds(a) && OneRowPerKey(a, key)
    ensures DistinctIds(b) && OneRowPerKey(b, key)
  {
    forall i, j | 0 <= i < j < |b| ensures b[i].operationId != b[j].operationId {
      assert SameCore(a[i], b[i]) && SameCore(a[j], b[j]);
    }
    forall i, j | 0 <= i < j < |b| && b[i].idempotencyKey == Some(key) ensures b[j].idempotencyKey != Some(key) {
      assert SameCore(a[i], b[i]) && SameCore(a[j], b[j]);
    }
  }

  /** An activation appends at most one row and touches no other. */
  lemma ActivateRows(w: World, req: Request, opId: string, now: int)
    ensures var jobs := Activate(w, req, opId, now).0.jobs;
            jobs == w.jobs || (jobs == w.jobs + [NewJob(req, opId, now)] && Earlier(w.jobs, req).None?)
    ensures Activate(w, req, opId, now).0.log == w.log
  {}

  lemma NewRowKeepsKey(jobs: seq<Job>, job: Job, req: Request, key: string)
    requires OneRowPerKey(jobs, key) && key != ""
    requires job.idempotencyKey == req.idempotencyKey && Earlier(jobs, req).None?
    ensures OneRowPerKey(jobs + [job], key)
  {}

  ghost predicate IdsUsed(jobs: seq<Job>, calls: seq<Call>) {
    forall j :: j in jobs ==> exists i :: 0 <= i < |calls| && calls[i].DoActivate? && calls[i].opId == j.operationId
  }

  lemma IdsUsedGrow(jobs: seq<Job>, calls: seq<Call>, c: Call)
    requires IdsUsed(jobs, calls)
    ensures IdsUsed(jobs, calls + [c])
  {
    forall j | j in jobs ensures exists i :: 0 <= i < |calls + [c]| && (calls + [c])[i].DoActivate? && (calls + [c])[i].opId == j.operationId {
      var i :| 0 <= i < |calls| && calls[i].DoActivate? && calls[i].opId == j.operationId;
      assert (calls + [c])[i] == calls[i];
    }
  }

  lemma IdsUsedCores(a: seq<Job>, b: seq<Job>, calls: seq<Call>)
    requires IdsUsed(a, calls) && SameCores(a, b)
    ensures IdsUsed(b, calls)
  {
    forall j | j in b ensures exists i :: 0 <= i < |calls| && calls[i].DoActivate? && calls[i].opId == j.operationId {
      var k :| 0 <= k < |b| && b[k] == j;
      assert SameCore(a[k], b[k]) && a[k] in a;
    }
  }

  lemma IdsUsedNew(jobs: seq<Job>, calls: seq<Call>, c: Call)
    requires IdsUsed(jobs, calls) && c.DoActivate? && FreshIds(calls + [c]) && DistinctIds(jobs)
    ensures IdsUsed(jobs + [NewJob(c.req, c.opId, c.now)], calls + [c]) && DistinctIds(jobs + [NewJob(c.req, c.opId, c.now)])
  {
    IdsUsedGrow(jobs, calls, c);
    assert (calls + [c])[|calls|] == c;
    forall j | j in jobs ensures j.operationId != c.opId {
      var i :| 0 <= i < |calls| && calls[i].DoActivate? && calls[i].opId == j.operationId;
      assert (calls + [c])[i] == calls[i];
    }
  }

  lemma {:induction false} RunRows(w: World, calls: seq<Call>, urlOk: string -> bool, key: string)
    requires Start(w) && FreshIds(calls)
    ensures var jobs := Run(w, calls, urlOk).jobs;
            DistinctIds(jobs) && IdsUsed(jobs, calls) && (key != "" ==> OneRowPerKey(jobs, key))
  {
    if calls != [] {
      DropLast(calls);
      var before, c := calls[..|calls| - 1], calls[|calls| - 1];
      assert calls == before + [c];
      RunRows(w, before, urlOk, key);
      StepRows(Run(w, before, urlOk), before, c, urlOk, key);
    }
  }

  lemma StepRows(w: World, before: seq<Call>, c: Call, urlOk: string -> bool, key: string)
    requires DistinctIds(w.jobs) && IdsUsed(w.jobs, before) && (key != "" ==> OneRowPerKey(w.jobs, key))
    requires FreshIds(before + [c])
    ensures var jobs := Step(w, c, urlOk).jobs;
            DistinctIds(jobs) && IdsUsed(jobs, before + [c]) && (key != "" ==> OneRowPerKey(jobs, key))
  {
    hide DistinctIds, IdsUsed, OneRowPerKey, FreshIds, SameCores, Activate, Poll;
    IdsUsedGrow(w.jobs, before, c);
    match c
    case DoActivate(req, opId, now) =>
      ActivateRows(w, req, opId, now);
      IdsUsedNew(w.jobs, before, c);
      if key != "" && Earlier(w.jobs, req).None? {
        NewRowKeepsKey(w.jobs, NewJob(req, opId, now), req, key);
      }
    case DoPoll(opId, env) =>
      var after := Poll(w, opId, env, urlOk).0.jobs;
      PollKeepsCores(w, opId, env, urlOk);
      IdsUsedCores(w.jobs, after, before + [c]);
      if key != "" {
        CoresCarry(w.jobs, after, key);
      } else {
        NoSuchKey(w.jobs, after);
      }
  }

  lemma NoSuchKey(a: seq<Job>, b: seq<Job>)
    requires SameCores(a, b) && DistinctIds(a)
    ensures DistinctIds(b)
  {
    forall i, j | 0 <= i < j < |b| ensures b[i].operationId != b[j].operationId {
      assert SameCore(a[i], b[i]) && SameCore(a[j], b[j]);
    }
  }

  // ---------------------------------------------------------------------
  // Idempotency
  // ---------------------------------------------------------------------

  ghost predicate AlwaysOneRow(key: string, urlOk: string -> bool) {
    forall w, calls :: Start(w) && FreshIds(calls) ==> OneRowPerKey(Run(w, calls, urlOk).jobs, key)
  }

  function KeyedRequest(key: string): Request {
    Request("s", "d", None, None, Some(key), None)
  }

  /** The empty key is not checked but is stored: two submissions leave two rows. */
  lemma EmptyKeyRepeats(urlOk: string -> bool)
    ensures !AlwaysOneRow("", urlOk)
  {
    var w := World([], map["s" := SignalRecord("s", true)], map[], []);
    var r := KeyedRequest("");
    var a, b := DoActivate(r, "op_1", 0), DoActivate(r, "op_2", 0);
    assert [a, b] == [a] + [b] && [a] == [] + [a];
    RunPrefix(w, [], a, urlOk);
    RunPrefix(w, [a], b, urlOk);
    var first := Activate(w, r, "op_1", 0).0;
    assert Earlier(w.jobs, r).None? && Resolve(w, r) == Resolved(Some(SignalRecord("s", true)), w);
    assert first == w.(jobs := w.jobs + [NewJob(r, "op_1", 0)]);
    assert Earlier(first.jobs, r).None? && Resolve(first, r) == Resolved(Some(SignalRecord("s", true)), first);
    var jobs := Run(w, [a, b], urlOk).jobs;
    assert jobs == [NewJob(r, "op_1", 0)] + [NewJob(r, "op_2", 0)];
    assert jobs[0].idempotencyKey == Some("") && jobs[1].idempotencyKey == Some("");
    assert Start(w) && FreshIds([a, b]);
  }

  /** Every run keeps at most one row for a key if and only if the key is not empty. */
  lemma OneRowPerKeyIff(key: string, urlOk: string -> bool)
    ensures AlwaysOneRow(key, urlOk) <==> key != ""
  {
    if key == "" {
      EmptyKeyRepeats(urlOk);
    } else {
      forall w, calls | Start(w) && FreshIds(calls) ensures OneRowPerKey(Run(w, calls, urlOk).jobs, key) {
        RunRows(w, calls, urlOk, key);
      }
    }
  }

  ghost predicate HoldsCore(jobs: seq<Job>, job: Job) {
    exists i :: 0 <= i < |jobs| && SameCore(jobs[i], job)
  }

  lemma CorePersists(w: World, c: Call, urlOk: string -> bool, job: Job)
    requires DistinctIds(w.jobs) && HoldsCore(w.jobs, job)
    ensures HoldsCore(Step(w, c, urlOk).jobs, job)
  {
    var i :| 0 <= i < |w.jobs| && SameCore(w.jobs[i], job);
    hide Activate, Poll;
    match c
    case DoActivate(req, opId, now) =>
      ActivateRows(w, req, opId, now);
      assert SameCore(Step(w, c, urlOk).jobs[i], job);
    case DoPoll(opId, env) =>
      PollKeepsCores(w, opId, env, urlOk);
      assert SameCore(w.jobs[i], Step(w, c, urlOk).jobs[i]);
  }

  lemma RunPrefix(w: World, a: seq<Call>, c: Call, urlOk: string -> bool)
    ensures Run(w, a + [c], urlOk) == Step(Run(w, a, urlOk), c, urlOk)
  {
    assert (a + [c])[..|a|] == a;
  }

  lemma {:induction false} RowPersists(w: World, a: seq<Call>, b: seq<Call>, urlOk: string -> bool, job: Job)
    requires Start(w) && FreshIds(a + b) && HoldsCore(Run(w, a, urlOk).jobs, job)
    ensures HoldsCore(Run(w, a + b, urlOk).jobs, job)
  {
    hide HoldsCore, Step;
    if b == [] {
      assert a + b == a;
    } else {
      var init, c := b[..|b| - 1], b[|b| - 1];
      assert a + b == (a + init) + [c];
      DropLast(a + b);
      assert (a + b)[..|a + b| - 1] == a + init;
      RowPersists(w, a, init, urlOk, job);
      RunRows(w, a + init, urlOk, "");
      RunPrefix(w, a + init, c, urlOk);
      CorePersists(Run(w, a + init, urlOk), c, urlOk, job);
    }
  }

  /** The outcome the idempotency contract asks for, given the row of the first accepted request. */
  ghost predicate ReplayOrConflict(first: Job, req: Request, outcome: Outcome) {
    if BodyMatches(first, req) then outcome.Accepted? && outcome.taskId == first.operationId && outcome.submittedAt == first.submittedAt
    else outcome == IdempotencyConflict(first.operationId)
  }

  lemma KeyedOutcome(w: World, first: Job, key: string, req: Request, opId: string, now: int)
    requires HoldsCore(w.jobs, first) && OneRowPerKey(w.jobs, key) && key != ""
    requires first.idempotencyKey == Some(key) && req.idempotencyKey == Some(key) && ReachesKeyCheck(w, req)
    ensures ReplayOrConflict(first, req, Activate(w, req, opId, now).1)
    ensures Activate(w, req, opId, now).0.jobs == w.jobs
  {
    var i :| 0 <= i < |w.jobs| && SameCore(w.jobs[i], first);
    var found := FindByKey(w.jobs, key);
    assert found.Some?;
    var k :| 0 <= k < |w.jobs| && w.jobs[k] == found.value;
    assert k == i;
    assert Earlier(w.jobs, req) == found;
  }

  /** Once a keyed request has created a row, every later request with that key that reaches the
      check gets the original task id if its body matches and the conflict otherwise, and adds no row. */
  lemma LaterRequestReplays(w: World, before: seq<Call>, first: Call, between: seq<Call>, req: Request, opId: string, now: int, urlOk: string -> bool)
    requires Start(w) && first.DoActivate? && FreshIds(before + [first] + between)
    requires NonEmpty(first.req.idempotencyKey).Some? && req.idempotencyKey == first.req.idempotencyKey
    requires ReachesKeyCheck(Run(w, before, urlOk), first.req) && Earlier(Run(w, before, urlOk).jobs, first.req).None?
    requires ReachesKeyCheck(Run(w, before + [first] + between, urlOk), req)
    ensures var final := Run(w, before + [first] + between, urlOk);
            && ReplayOrConflict(NewJob(first.req, first.opId, first.now), req, Activate(final, req, opId, now).1)
            && Activate(final, req, opId, now).0.jobs == final.jobs
  {
    var key := first.req.idempotencyKey.value;
    var row := NewJob(first.req, first.opId, first.now);
    FirstRow(Run(w, before, urlOk), first, urlOk);
    RunPrefix(w, before, first, urlOk);
    hide Activate, Poll, Step, FreshIds, ReachesKeyCheck, Earlier, Run, HoldsCore, OneRowPerKey;
    RowPersists(w, before + [first], between, urlOk, row);
    RunRows(w, before + [first] + between, urlOk, key);
    KeyedOutcome(Run(w, before + [first] + between, urlOk), row, key, req, opId, now);
  }

  lemma FirstRow(w: World, c: Call, urlOk: string -> bool)
    requires c.DoActivate? && ReachesKeyCheck(w, c.req) && Earlier(w.jobs, c.req).None?
    ensures HoldsCore(Step(w, c, urlOk).jobs, NewJob(c.req, c.opId, c.now))
  {
    var jobs := Step(w, c, urlOk).jobs;
    assert jobs == w.jobs + [NewJob(c.req, c.opId, c.now)];
    assert SameCore(jobs[|w.jobs|], NewJob(c.req, c.opId, c.now));
  }

  // ---------------------------------------------------------------------
  // Webhook delivery
  // ---------------------------------------------------------------------

  function History(log: seq<Attempt>, id: string): seq<Attempt> {
    if log == [] then []
    else History(log[..|log| - 1], id) + if log[|log| - 1].operationId == id then [log[|log| - 1]] else []
  }

  lemma {:induction false} HistoryConcat(a: seq<Attempt>, b: seq<Attempt>, id: string)
    ensures History(a + b, id) == History(a, id) + History(b, id)
  {
    if b == [] {
      assert a + b == a;
    } else {
      var n := |b| - 1;
      assert (a + b)[..|a + b| - 1] == a + b[..n];
      HistoryConcat(a, b[..n], id);
    }
  }

  /** Attempts are numbered from 1, go to the row's own usable URL, and are signed when sent with a key. */
  ghost predicate WellSent(job: Job, h: seq<Attempt>, urlOk: string -> bool) {
    forall i :: 0 <= i < |h| ==>
      && h[i].number == i + 1 && Some(h[i].url) == job.webhookUrl && h[i].url != "" && urlOk(h[i].url)
      && (h[i].accepted ==> h[i].sent)
      && (h[i].sent && h[i].keyPresent ==> h[i].signed)
  }

  /** Attempt k+1 starts at least the k-th backoff after attempt k. */
  ghost predicate Spaced(h: seq<Attempt>) {
    forall i :: 0 <= i < |h| - 1 ==> h[i + 1].startedAt >= h[i].startedAt + BackoffSeconds(i + 1) * 1000
  }

  ghost predicate OnlyLastAccepted(h: seq<Attempt>) {
    forall i :: 0 <= i < |h| - 1 ==> !h[i].accepted
  }

  /** The row knows how many attempts there were, whether the last was accepted, and when the
      next may start. */
  ghost predicate Tracks(job: Job, h: seq<Attempt>) {
    && |h| == job.webhookAttempts <= MAX_WEBHOOK_ATTEMPTS
    && (h != [] ==> (h[|h| - 1].accepted <==> job.webhookFired))
    && (h != [] && !job.webhookFired && |h| < MAX_WEBHOOK_ATTEMPTS ==>
          && job.nextAttemptAt.Some?
          && job.nextAttemptAt.value >= h[|h| - 1].startedAt + BackoffSeconds(|h|) * 1000)
  }

  ghost predicate DeliveryOk(job: Job, h: seq<Attempt>, urlOk: string -> bool) {
    WellSent(job, h, urlOk) && Spaced(h) && OnlyLastAccepted(h) && Tracks(job, h)
  }

  lemma AdvanceKeeps(job: Job, h: seq<Attempt>, urlOk: string -> bool)
    requires DeliveryOk(job, h, urlOk)
    ensures DeliveryOk(job.(status := AdvanceStatus(job.status)), h, urlOk)
  {}

  lemma AttemptKeeps(job: Job, h: seq<Attempt>, env: PollEnv, urlOk: string -> bool)
    requires DeliveryOk(job, h, urlOk) && Delivers(job, env) && urlOk(job.webhookUrl.value)
    requires env.gateAt <= env.startAt <= env.doneAt
    ensures DeliveryOk(AfterAttempt(job, env), h + [AttemptOf(job, env)], urlOk)
  {
    var more := h + [AttemptOf(job, env)];
    assert Spaced(more) by {
      hide WellSent, OnlyLastAccepted;
      forall i | 0 <= i < |more| - 1 ensures more[i + 1].startedAt >= more[i].startedAt + BackoffSeconds(i + 1) * 1000 {
        if i + 1 < |h| {
          assert more[i] == h[i] && more[i + 1] == h[i + 1];
        } else {
          assert more[i] == h[|h| - 1];
        }
      }
    }
  }

  lemma UrlOfHistory(job: Job, h: seq<Attempt>, urlOk: string -> bool)
    requires WellSent(job, h, urlOk)
    ensures h == [] || (job.webhookUrl == Some(h[0].url) && urlOk(h[0].url))
  {}

  lemma RejectKeeps(job: Job, h: seq<Attempt>, env: PollEnv, urlOk: string -> bool)
    requires DeliveryOk(job, h, urlOk) && Delivers(job, env) && !urlOk(job.webhookUrl.value)
    ensures DeliveryOk(job.(webhookFired := true), h, urlOk)
  {
    UrlOfHistory(job, h, urlOk);
  }

  lemma RowKeeps(job: Job, h: seq<Attempt>, env: PollEnv, urlOk: string -> bool)
    requires DeliveryOk(job, h, urlOk) && env.gateAt <= env.startAt <= env.doneAt
    ensures DeliveryOk(PollRow(job, env, urlOk).0, h + PollRow(job, env, urlOk).1, urlOk)
  {
    hide DeliveryOk, AfterAttempt, AttemptOf;
    var advanced := job.(status := AdvanceStatus(job.status));
    AdvanceKeeps(job, h, urlOk);
    assert h + [] == h;
    if Delivers(advanced, env) {
      if urlOk(advanced.webhookUrl.value) {
        AttemptKeeps(advanced, h, env, urlOk);
      } else {
        RejectKeeps(advanced, h, env, urlOk);
      }
    }
  }

  ghost predicate AllDeliveriesOk(w: World, urlOk: string -> bool) {
    && (forall i :: 0 <= i < |w.jobs| ==> DeliveryOk(w.jobs[i], History(w.log, w.jobs[i].operationId), urlOk))
    && (forall a :: a in w.log ==> exists i :: 0 <= i < |w.jobs| && w.jobs[i].operationId == a.operationId)
  }

  lemma {:induction false} NoHistory(log: seq<Attempt>, id: string)
    requires forall a :: a in log ==> a.operationId != id
    ensures History(log, id) == []
  {
    if log != [] {
      NoHistory(log[..|log| - 1], id);
    }
  }

  lemma NewRowOk(job: Job, urlOk: string -> bool)
    requires job.webhookAttempts == 0
    ensures DeliveryOk(job, [], urlOk)
  {}

  lemma ActivateKeepsDeliveries(w: World, req: Request, opId: string, now: int, urlOk: string -> bool)
    requires AllDeliveriesOk(w, urlOk) && forall j :: j in w.jobs ==> j.operationId != opId
    ensures AllDeliveriesOk(Activate(w, req, opId, now).0, urlOk)
  {
    hide Activate, DeliveryOk, History;
    ActivateRows(w, req, opId, now);
    var after := Activate(w, req, opId, now).0;
    var row := NewJob(req, opId, now);
    forall a | a in w.log ensures a.operationId != opId {
      var i :| 0 <= i < |w.jobs| && w.jobs[i].operationId == a.operationId;
      assert w.jobs[i] in w.jobs;
    }
    NoHistory(w.log, opId);
    NewRowOk(row, urlOk);
    forall i | 0 <= i < |after.jobs| ensures DeliveryOk(after.jobs[i], History(after.log, after.jobs[i].operationId), urlOk) {
      if i < |w.jobs| {
        assert after.jobs[i] == w.jobs[i];
      }
    }
    forall a | a in after.log ensures exists i :: 0 <= i < |after.jobs| && after.jobs[i].operationId == a.operationId {
      var i :| 0 <= i < |w.jobs| && w.jobs[i].operationId == a.operationId;
      assert after.jobs[i] == w.jobs[i];
    }
  }

  lemma AttemptsOfRow(job: Job, env: PollEnv, urlOk: string -> bool, id: string)
    ensures PollRow(job, env, urlOk).0.operationId == job.operationId
    ensures forall a :: a in PollRow(job, env, urlOk).1 ==> a.operationId == job.operationId
    ensures History(PollRow(job, env, urlOk).1, id) == if id == job.operationId then PollRow(job, env, urlOk).1 else []
  {
    var attempts := PollRow(job, env, urlOk).1;
    if attempts != [] {
      assert attempts[..0] == [];
      assert History([], id) == [];
    }
  }

  lemma PollKeepsDeliveries(w: World, opId: string, env: PollEnv, urlOk: string -> bool)
    requires DistinctIds(w.jobs) && AllDeliveriesOk(w, urlOk) && env.gateAt <= env.startAt <= env.doneAt
    ensures AllDeliveriesOk(Poll(w, opId, env, urlOk).0, urlOk)
  {
    hide DeliveryOk, History, PollRow;
    var found := FindById(w.jobs, opId);
    if found.Some? {
      var job := found.value;
      var after := Poll(w, opId, env, urlOk).0;
      RowIs(w.jobs, job);
      AttemptsOfRow(job, env, urlOk, opId);
      forall i | 0 <= i < |after.jobs| ensures DeliveryOk(after.jobs[i], History(after.log, after.jobs[i].operationId), urlOk) {
        var id, h := w.jobs[i].operationId, History(w.log, w.jobs[i].operationId);
        AttemptsOfRow(job, env, urlOk, id);
        HistoryConcat(w.log, PollRow(job, env, urlOk).1, id);
        assert DeliveryOk(w.jobs[i], h, urlOk);
        assert h + [] == h;
        if id == opId {
          RowKeeps(job, h, env, urlOk);
          assert w.jobs[i] == job;
          assert after.jobs[i] == PollRow(job, env, urlOk).0;
        } else {
          assert after.jobs[i] == w.jobs[i];
        }
      }
      forall a | a in after.log ensures exists i :: 0 <= i < |after.jobs| && after.jobs[i].operationId == a.operationId {
        if a in w.log {
          var i :| 0 <= i < |w.jobs| && w.jobs[i].operationId == a.operationId;
          assert after.jobs[i].operationId == a.operationId;
        } else {
          var i :| 0 <= i < |w.jobs| && w.jobs[i] == job;
          assert after.jobs[i].operationId == a.operationId;
        }
      }
    }
  }

  lemma FreshForRows(jobs: seq<Job>, before: seq<Call>, c: Call)
    requires IdsUsed(jobs, before) && c.DoActivate? && FreshIds(before + [c])
    ensures forall j :: j in jobs ==> j.operationId != c.opId
  {
    forall j | j in jobs ensures j.operationId != c.opId {
      var i :| 0 <= i < |before| && before[i].DoActivate? && before[i].opId == j.operationId;
      assert (before + [c])[i] == before[i] && (before + [c])[|before|] == c;
    }
  }

  lemma {:induction false} RunDeliveries(w: World, calls: seq<Call>, urlOk: string -> bool)
    requires Start(w) && FreshIds(calls) && ClocksOk(calls)
    ensures AllDeliveriesOk(Run(w, calls, urlOk), urlOk)
  {
    if calls != [] {
      var before, c := calls[..|calls| - 1], calls[|calls| - 1];
      assert calls == before + [c];
      DropLast(calls);
      hide AllDeliveriesOk, IdsUsed, FreshIds, ClocksOk, DistinctIds, Activate, Poll;
      RunDeliveries(w, before, urlOk);
      RunRows(w, before, urlOk, "");
      var v := Run(w, before, urlOk);
      match c
      case DoActivate(req, opId, now) =>
        FreshForRows(v.jobs, before, c);
        ActivateKeepsDeliveries(v, req, opId, now, urlOk);
      case DoPoll(opId, env) =>
        PollKeepsDeliveries(v, opId, env, urlOk);
    }
  }

  /** The delivery guarantee of one operation, read off the observed attempts alone. */
  ghost predicate SafeHistory(h: seq<Attempt>, urlOk: string -> bool) {
    && |h| <= MAX_WEBHOOK_ATTEMPTS
    && OnlyLastAccepted(h)
    && Spaced(h)
    && (forall i :: 0 <= i < |h| ==> urlOk(h[i].url) && (h[i].sent && h[i].keyPresent ==> h[i].signed))
  }

  /** Over every run, any operation gets at most five attempts and at most one accepted delivery, which
      is the last thing it gets; attempts keep the backoff; nothing goes to an unusable URL; and with a
      signing key nothing is sent unsigned. */
  lemma DeliverySafety(w: World, calls: seq<Call>, urlOk: string -> bool, id: string)
    requires Start(w) && FreshIds(calls) && ClocksOk(calls)
    ensures SafeHistory(History(Run(w, calls, urlOk).log, id), urlOk)
  {
    RunDeliveries(w, calls, urlOk);
    var v := Run(w, calls, urlOk);
    hide Run, History;
    if i :| 0 <= i < |v.jobs| && v.jobs[i].operationId == id {
      assert DeliveryOk(v.jobs[i], History(v.log, id), urlOk);
    } else {
      NoHistory(v.log, id);
    }
  }

  /** The fifth attempt starts at least 2550 seconds after the first. */
  lemma FifthAttempt(h: seq<Attempt>, urlOk: string -> bool)
    requires SafeHistory(h, urlOk) && |h| == 5
    ensures h[4].startedAt - h[0].startedAt >= 2_550_000
  {
    assert BackoffSeconds(1) == 30 && BackoffSeconds(2) == 120;
    assert BackoffSeconds(3) == 480;
    assert Power4(3) == 4 * Power4(2) && Power4(2) == 16;
    assert BackoffSeconds(4) == 1920;
    assert h[0 + 1].startedAt >= h[0].startedAt + BackoffSeconds(0 + 1) * 1000;
    assert h[1 + 1].startedAt >= h[1].startedAt + BackoffSeconds(1 + 1) * 1000;
    assert h[2 + 1].startedAt >= h[2].startedAt + BackoffSeconds(2 + 1) * 1000;
    assert h[3 + 1].startedAt >= h[3].startedAt + BackoffSeconds(3 + 1) * 1000;
  }
}
