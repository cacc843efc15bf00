/** The worker pool and the server around it as a step system (`SERVER-CONCURRENCY/src/thread_pool.c`,
    `job_queue.c`, and the job callbacks of `SERVER-RUNTIME/src/db_server_runtime.c`).  Any number of
    submitters, workers and callers of shutdown; each mutex-protected section is one step, a thread in a
    condition wait is asleep or awake and about to check again, and wake-ups may be spurious. */
module ThreadPool {
  import opened Basics
  import opened JobQueue

  datatype Mode = Drain | CancelPending

  datatype JobResult = Finished(ok: bool) | Cancelled | Rejected

  /** Where a thread is.  Submitters accept a client and offer it as a job; workers pop and serve jobs;
      the remaining phases are those of a call of shutdown. */
  datatype Phase =
    | Idle
    | Offering(job: nat)
    | Pushing(job: nat, blocking: bool)
    | PushAsleep(job: nat)
    | PushAwake(job: nat)
    | Refused(job: nat)
    | Discarding(job: nat)
    | Popping
    | PopAsleep
    | PopAwake
    | Assigned(job: nat)
    | Running(job: nat)
    | Served(job: nat)
    | Exited
    | Calling
    | Flagged
    | Cancelling
    | Cancel(job: nat)
    | Joining
    | Returned
    | ReturnedEarly

  /** A client connection: whether the job context still owns the descriptor, and how often the
      descriptor has been closed and the context freed. */
  datatype Client = Client(owned: bool, closes: nat, frees: nat)

  datatype State = State(
    queue: Queue<nat>,
    shutdown: Option<Mode>,
    threads: seq<Phase>,
    clients: seq<Client>,
    accepted: set<nat>,
    finished: seq<(nat, JobResult)>)

  // ----- steps -----------------------------------------------------------------------------------------

  datatype Event =
    | Arrive(t: nat)
    | CheckAccepting(t: nat, blocking: bool)
    | Push(t: nat, woken: Option<nat>)
    | CloseRefused(t: nat)
    | Discard(t: nat)
    | Pop(t: nat, woken: Option<nat>)
    | TakeClient(t: nat)
    | Serve(t: nat)
    | Finish(t: nat, ok: bool)
    | Spurious(t: nat)
    | BeginShutdown(t: nat, mode: Mode)
    | CloseQueue(t: nat)
    | CancelNext(t: nat, woken: Option<nat>)
    | FinishCancelled(t: nat)
    | Join(t: nat)

  predicate IsWorker(p: Phase) {
    p.Popping? || p.PopAsleep? || p.PopAwake? || p.Assigned? || p.Running? || p.Served? || p.Exited?
  }

  predicate Asleep(p: Phase) { p.PopAsleep? || p.PushAsleep? }

  function Awoken(p: Phase): Phase {
    match p
    case PopAsleep => PopAwake
    case PushAsleep(job) => PushAwake(job)
    case _ => p
  }

  /** A signal wakes some sleeping thread of the right kind, or nobody if none sleeps. */
  predicate MayWake(ts: seq<Phase>, woken: Option<nat>, workers: bool) {
    match woken
    case Some(w) => w < |ts| && (if workers then ts[w].PopAsleep? else ts[w].PushAsleep?)
    case None => forall w :: 0 <= w < |ts| ==> !(if workers then ts[w].PopAsleep? else ts[w].PushAsleep?)
  }

  function Woken(ts: seq<Phase>, woken: Option<nat>): seq<Phase> {
    if woken.Some? && woken.value < |ts| then ts[woken.value := Awoken(ts[woken.value])] else ts
  }

  function WakeAll(ts: seq<Phase>): seq<Phase> {
    seq(|ts|, i requires 0 <= i < |ts| => Awoken(ts[i]))
  }

  predicate Enabled(s: State, e: Event) {
    e.t < |s.threads| &&
    var p := s.threads[e.t];
    match e
    case Arrive(_) => p.Idle?
    case CheckAccepting(_, _) => p.Offering?
    case Push(_, woken) =>
      (p.Pushing? || p.PushAwake?) && (PushResult(s, p).1.Pushed? ==> MayWake(s.threads, woken, true))
    case CloseRefused(_) => p.Refused? && p.job < |s.clients|
    case Discard(_) => p.Discarding? && p.job < |s.clients|
    case Pop(_, woken) =>
      (p.Popping? || p.PopAwake?) && (PopSection(s.queue).1.Popped? ==> MayWake(s.threads, woken, false))
    case TakeClient(_) => p.Assigned? && p.job < |s.clients|
    case Serve(_) => p.Running? && p.job < |s.clients|
    case Finish(_, _) => p.Served? && p.job < |s.clients|
    case Spurious(_) => Asleep(p)
    case BeginShutdown(_, _) => p.Calling?
    case CloseQueue(_) => p.Flagged?
    case CancelNext(_, woken) =>
      p.Cancelling? && (PopSection(s.queue).1.Popped? ==> MayWake(s.threads, woken, false))
    case FinishCancelled(_) => p.Cancel? && p.job < |s.clients|
    case Join(_) => p.Joining? && forall u :: 0 <= u < |s.threads| && IsWorker(s.threads[u]) ==> s.threads[u].Exited?
  }

  function PushResult(s: State, p: Phase): (Queue<nat>, PushStatus)
    requires p.Pushing? || p.PushAwake?
  {
    PushSection(s.queue, p.job, p.PushAwake? || p.blocking)
  }

  function Put(s: State, t: nat, p: Phase): State
    requires t < |s.threads|
  {
    s.(threads := s.threads[t := p])
  }

  /** `cleanup_client_job`: close the descriptor if the context still owns it, then free the context. */
  function Cleanup(c: Client): Client { Client(false, if c.owned then c.closes + 1 else c.closes, c.frees + 1) }

  /** `concurrency_job_finish`. */
  function FinishJob(s: State, job: nat, result: JobResult): State
    requires job < |s.clients|
  {
    s.(clients := s.clients[job := Cleanup(s.clients[job])], finished := s.finished + [(job, result)])
  }

  function After(s: State, e: Event): State
    requires Enabled(s, e)
  {
    var t, p := e.t, s.threads[e.t];
    match e
    case Arrive(_) => Put(s, t, Offering(|s.clients|)).(clients := s.clients + [Client(true, 0, 0)])
    case CheckAccepting(_, blocking) => Put(s, t, if s.shutdown.None? then Pushing(p.job, blocking) else Refused(p.job))
    case Push(_, woken) =>
      (match PushResult(s, p)
       case (q, Pushed) =>
         Put(s.(queue := q, threads := Woken(s.threads, woken), accepted := s.accepted + {p.job}), t, Idle)
       case (_, MustWait) => Put(s, t, PushAsleep(p.job))
       case (_, Full) => Put(s, t, Refused(p.job))
       case (_, Closed) => Put(s, t, Refused(p.job)))
    case CloseRefused(_) =>
      var c := s.clients[p.job];
      Put(s, t, Discarding(p.job)).(clients := s.clients[p.job := Client(false, c.closes + 1, c.frees)])
    case Discard(_) => FinishJob(Put(s, t, Idle), p.job, Rejected)
    case Pop(_, woken) =>
      (match PopSection(s.queue)
       case (q, Popped(job)) => Put(s.(queue := q, threads := Woken(s.threads, woken)), t, Assigned(job))
       case (_, Wait) => Put(s, t, PopAsleep)
       case (_, Ended) => Put(s, t, Exited))
    case TakeClient(_) => Put(s, t, Running(p.job)).(clients := s.clients[p.job := s.clients[p.job].(owned := false)])
    case Serve(_) =>
      var c := s.clients[p.job];
      Put(s, t, Served(p.job)).(clients := s.clients[p.job := c.(closes := c.closes + 1)])
    case Finish(_, ok) => FinishJob(Put(s, t, Popping), p.job, Finished(ok))
    case Spurious(_) => Put(s, t, Awoken(p))
    case BeginShutdown(_, mode) =>
      if s.shutdown.Some? then Put(s, t, ReturnedEarly) else Put(s.(shutdown := Some(mode)), t, Flagged)
    case CloseQueue(_) =>
      Put(s.(queue := s.queue.(closed := true), threads := WakeAll(s.threads)), t,
          if s.shutdown == Some(CancelPending) then Cancelling else Joining)
    case CancelNext(_, woken) =>
      (match PopSection(s.queue)
       case (q, Popped(job)) => Put(s.(queue := q, threads := Woken(s.threads, woken)), t, Cancel(job))
       case _ => Put(s, t, Joining))
    case FinishCancelled(_) => FinishJob(Put(s, t, Cancelling), p.job, Cancelled)
    case Join(_) => Put(s, t, Returned)
  }

  // ----- where every job is ------------------------------------------------------------------------------

  function JobOf(p: Phase): Option<nat> {
    if p.Offering? || p.Pushing? || p.PushAsleep? || p.PushAwake? || p.Refused? || p.Discarding?
       || p.Assigned? || p.Running? || p.Served? || p.Cancel?
    then Some(p.job) else None
  }

  function JobsOf(ts: seq<Phase>): seq<Option<nat>> { seq(|ts|, i requires 0 <= i < |ts| => JobOf(ts[i])) }

  function One(b: bool): nat { if b then 1 else 0 }

  /** How often a job is queued, ... */
  function Queued(jobs: seq<nat>, job: nat): nat { multiset(jobs)[job] }

  /** ... held by a thread, ... */
  function Held(ts: seq<Phase>, job: nat): nat { multiset(JobsOf(ts))[Some(job)] }

  /** ... or finished. */
  function Ended(fs: seq<(nat, JobResult)>, job: nat): nat { multiset(FinishedJobs(fs))[job] }

  function FinishedJobs(fs: seq<(nat, JobResult)>): seq<nat> { seq(|fs|, i requires 0 <= i < |fs| => fs[i].0) }

  function Places(s: State, job: nat): nat { Queued(s.queue.jobs, job) + Held(s.threads, job) + Ended(s.finished, job) }

  lemma HeldSet(ts: seq<Phase>, t: nat, p: Phase, job: nat)
    requires t < |ts|
    ensures Held(ts[t := p], job) + One(JobOf(ts[t]) == Some(job)) == Held(ts, job) + One(JobOf(p) == Some(job))
  {
    assert JobsOf(ts[t := p]) == JobsOf(ts)[t := JobOf(p)];
    assert JobsOf(ts)[t] == JobOf(ts[t]) && JobOf(ts[t]) in multiset(JobsOf(ts));
  }

  lemma HeldAwoken(ts: seq<Phase>, woken: Option<nat>, job: nat)
    ensures Held(Woken(ts, woken), job) == Held(WakeAll(ts), job) == Held(ts, job)
  {
    assert JobsOf(Woken(ts, woken)) == JobsOf(ts) && JobsOf(WakeAll(ts)) == JobsOf(ts);
  }

  lemma QueuedPush(jobs: seq<nat>, j: nat, job: nat)
    ensures Queued(jobs + [j], job) == Queued(jobs, job) + One(j == job)
  {
  }

  lemma QueuedPop(jobs: seq<nat>, job: nat)
    requires jobs != []
    ensures Queued(jobs, job) == One(jobs[0] == job) + Queued(jobs[1..], job)
  {
    assert jobs == [jobs[0]] + jobs[1..];
  }

  lemma EndedSnoc(fs: seq<(nat, JobResult)>, f: (nat, JobResult), job: nat)
    ensures Ended(fs + [f], job) == Ended(fs, job) + One(f.0 == job)
  {
    assert FinishedJobs(fs + [f]) == FinishedJobs(fs) + [f.0];
  }

  lemma WokenLength(ts: seq<Phase>, woken: Option<nat>, t: nat)
    requires t < |ts|
    ensures |Woken(ts, woken)| == |WakeAll(ts)| == |ts|
    ensures !Asleep(ts[t]) ==> Woken(ts, woken)[t] == WakeAll(ts)[t] == ts[t]
  {
  }

  /** Every step moves jobs from one place to another; only an arriving client adds a new one. */
  lemma StepPlaces(s: State, e: Event, job: nat)
    requires Enabled(s, e)
    ensures Places(After(s, e), job) == Places(s, job) + One(e.Arrive? && job == |s.clients|)
  {
    hide After, Places;
    if e.Push? {
      PushPlaces(s, e, job);
    } else if e.Pop? || e.CancelNext? {
      PopPlaces(s, e, job);
    } else if Finishes(e) {
      FinishPlaces(s, e, job);
    } else {
      OtherPlaces(s, e, job);
    }
  }

  lemma OtherPlaces(s: State, e: Event, job: nat)
    requires Enabled(s, e) && !e.Push? && !e.Pop? && !e.CancelNext? && !Finishes(e)
    ensures Places(After(s, e), job) == Places(s, job) + One(e.Arrive? && job == |s.clients|)
  {
    hide Queued, Held, Ended, WakeAll;
    HeldAwoken(s.threads, None, job);
    WokenLength(s.threads, None, e.t);
    var ts := if e.CloseQueue? then WakeAll(s.threads) else s.threads;
    HeldSet(ts, e.t, After(s, e).threads[e.t], job);
  }

  /** Steps that finish a job. */
  predicate Finishes(e: Event) { e.Discard? || e.Finish? || e.FinishCancelled? }

  lemma FinishPlaces(s: State, e: Event, job: nat)
    requires Enabled(s, e) && Finishes(e)
    ensures Places(After(s, e), job) == Places(s, job)
  {
    hide Queued, Held, Ended;
    var s' := After(s, e);
    HeldSet(s.threads, e.t, s'.threads[e.t], job);
    EndedSnoc(s.finished, s'.finished[|s.finished|], job);
  }

  lemma PushPlaces(s: State, e: Event, job: nat)
    requires Enabled(s, e) && e.Push?
    ensures Places(After(s, e), job) == Places(s, job)
  {
    hide Queued, Held, Ended, Woken;
    var ts, s' := s.threads, After(s, e);
    HeldAwoken(ts, e.woken, job);
    WokenLength(ts, e.woken, e.t);
    HeldSet(ts, e.t, s'.threads[e.t], job);
    HeldSet(Woken(ts, e.woken), e.t, s'.threads[e.t], job);
    QueuedPush(s.queue.jobs, ts[e.t].job, job);
  }

  lemma PopPlaces(s: State, e: Event, job: nat)
    requires Enabled(s, e) && (e.Pop? || e.CancelNext?)
    ensures Places(After(s, e), job) == Places(s, job)
  {
    hide Queued, Held, Ended, Woken;
    var ts, s' := s.threads, After(s, e);
    WokenLength(ts, e.woken, e.t);
    HeldAwoken(ts, e.woken, job);
    HeldSet(ts, e.t, s'.threads[e.t], job);
    HeldSet(Woken(ts, e.woken), e.t, s'.threads[e.t], job);
    if s.queue.jobs != [] { QueuedPop(s.queue.jobs, job); }
  }

  /** Every job that exists is in exactly one place, and no other job is anywhere. */
  ghost predicate Conserved(s: State) { forall job: nat :: Places(s, job) == One(job < |s.clients|) }

  lemma StepConserved(s: State, e: Event)
    requires Conserved(s) && Enabled(s, e)
    ensures Conserved(After(s, e))
  {
    hide Places;
    var s' := After(s, e);
    forall job: nat ensures Places(s', job) == One(job < |s'.clients|) {
      StepPlaces(s, e, job);
    }
  }

  // ----- what has happened to every client -----------------------------------------------------------------

  const NEW := Client(true, 0, 0)

  /** The state of the client whose job a thread holds. */
  function Expected(p: Phase): Client {
    match p
    case Discarding(_) => Client(false, 1, 0)
    case Running(_) => Client(false, 0, 0)
    case Served(_) => Client(false, 1, 0)
    case _ => NEW
  }

  predicate IsSubmitter(p: Phase) {
    p.Offering? || p.Pushing? || p.PushAsleep? || p.PushAwake? || p.Refused? || p.Discarding?
  }

  predicate PhaseOk(s: State, p: Phase) {
    JobOf(p).Some? ==>
      p.job < |s.clients| && s.clients[p.job] == Expected(p) && (IsSubmitter(p) <==> p.job !in s.accepted)
  }

  predicate QueuedOk(s: State, job: nat) { job < |s.clients| && s.clients[job] == NEW && job in s.accepted }

  predicate FinishedOk(s: State, f: (nat, JobResult)) {
    && f.0 < |s.clients| && s.clients[f.0] == Client(false, 1, 1)
    && (f.1.Rejected? <==> f.0 !in s.accepted)
    && (f.1.Cancelled? ==> s.shutdown == Some(CancelPending))
  }

  /** A queued client is untouched, a finished one has been closed and freed exactly once, and each
      phase in between has done its part. */
  predicate ClientsOk(s: State) {
    && (forall t :: 0 <= t < |s.threads| ==> PhaseOk(s, s.threads[t]))
    && (forall i :: 0 <= i < |s.queue.jobs| ==> QueuedOk(s, s.queue.jobs[i]))
    && (forall i :: 0 <= i < |s.finished| ==> FinishedOk(s, s.finished[i]))
    && (forall job <- s.accepted :: job < |s.clients|)
  }

  /** Nobody else has a job that thread `t` holds. */
  lemma OnlyHolder(s: State, t: nat, job: nat)
    requires Conserved(s) && t < |s.threads| && JobOf(s.threads[t]) == Some(job)
    ensures job < |s.clients| && job !in s.queue.jobs
    ensures forall u :: 0 <= u < |s.threads| && u != t ==> JobOf(s.threads[u]) != Some(job)
    ensures forall i :: 0 <= i < |s.finished| ==> s.finished[i].0 != job
  {
    assert Places(s, job) <= 1;
    var ts := s.threads[t := Idle];
    HeldSet(s.threads, t, Idle, job);
    assert Held(ts, job) == 0;
    forall u | 0 <= u < |s.threads| && u != t ensures JobOf(s.threads[u]) != Some(job) {
      assert JobsOf(ts)[u] == JobOf(s.threads[u]);
    }
    forall i | 0 <= i < |s.finished| ensures s.finished[i].0 != job {
      assert FinishedJobs(s.finished)[i] == s.finished[i].0;
    }
  }

  lemma WokenPhase(ts: seq<Phase>, woken: Option<nat>, u: nat)
    requires u < |ts|
    ensures |Woken(ts, woken)| == |WakeAll(ts)| == |ts|
    ensures Woken(ts, woken)[u] in {ts[u], Awoken(ts[u])} && WakeAll(ts)[u] == Awoken(ts[u])
  {
  }

  /** A step changes one thread, apart from waking others. */
  lemma OtherThread(s: State, e: Event, u: nat)
    requires Enabled(s, e) && u < |s.threads| && u != e.t
    ensures |After(s, e).threads| == |s.threads|
    ensures After(s, e).threads[u] in {s.threads[u], Awoken(s.threads[u])}
    ensures e.CloseQueue? ==> After(s, e).threads[u] == Awoken(s.threads[u])
  {
    hide Woken, WakeAll;
    WokenPhase(s.threads, if e.Push? || e.Pop? || e.CancelNext? then e.woken else None, u);
  }

  /** A step touches no client but that of the job its thread holds. */
  lemma OtherJob(s: State, e: Event, job: nat)
    requires Enabled(s, e) && job < |s.clients| && JobOf(s.threads[e.t]) != Some(job)
    ensures var s' := After(s, e);
            job < |s'.clients| && s'.clients[job] == s.clients[job] && (job in s'.accepted <==> job in s.accepted)
  {
    hide Woken, WakeAll;
  }

  /** Threads other than the one that moves keep their relation to their clients. */
  lemma OtherPhaseOk(s: State, e: Event, u: nat)
    requires Conserved(s) && ClientsOk(s) && Enabled(s, e) && u < |s.threads| && u != e.t
    ensures |After(s, e).threads| == |s.threads| && PhaseOk(After(s, e), After(s, e).threads[u])
  {
    hide Places, After;
    OtherThread(s, e, u);
    var p := s.threads[u];
    assert PhaseOk(s, p);
    if JobOf(p).Some? {
      OnlyHolder(s, u, p.job);
      OtherJob(s, e, p.job);
    }
  }

  lemma OwnPhaseOk(s: State, e: Event)
    requires Conserved(s) && ClientsOk(s) && Enabled(s, e)
    ensures |After(s, e).threads| == |s.threads| && PhaseOk(After(s, e), After(s, e).threads[e.t])
  {
    hide Places, PhaseOk, After;
    if e.Push? || e.Pop? || e.CancelNext? {
      QueuePhaseOk(s, e);
    } else {
      PlainPhaseOk(s, e);
    }
  }

  lemma QueuePhaseOk(s: State, e: Event)
    requires ClientsOk(s) && Enabled(s, e) && (e.Push? || e.Pop? || e.CancelNext?)
    ensures |After(s, e).threads| == |s.threads| && PhaseOk(After(s, e), After(s, e).threads[e.t])
  {
    hide Woken;
    WokenLength(s.threads, e.woken, e.t);
    assert PhaseOk(s, s.threads[e.t]);
    if !e.Push? && s.queue.jobs != [] { assert QueuedOk(s, s.queue.jobs[0]); }
  }

  lemma PlainPhaseOk(s: State, e: Event)
    requires ClientsOk(s) && Enabled(s, e) && !(e.Push? || e.Pop? || e.CancelNext?)
    ensures |After(s, e).threads| == |s.threads| && PhaseOk(After(s, e), After(s, e).threads[e.t])
  {
    hide WakeAll;
    WokenLength(s.threads, None, e.t);
    assert PhaseOk(s, s.threads[e.t]);
  }

  /** The queue only ever gains the job its pusher holds. */
  lemma QueueStep(s: State, e: Event)
    requires Enabled(s, e)
    ensures var jobs, jobs' := s.queue.jobs, After(s, e).queue.jobs;
            jobs' == jobs || (jobs != [] && jobs' == jobs[1..])
            || (&& e.Push? && JobOf(s.threads[e.t]).Some? && jobs' == jobs + [s.threads[e.t].job]
                && After(s, e).accepted == s.accepted + {s.threads[e.t].job} && After(s, e).clients == s.clients)
  {
    hide Woken, WakeAll;
  }

  lemma QueueOk(s: State, e: Event)
    requires Conserved(s) && ClientsOk(s) && Enabled(s, e)
    ensures var s' := After(s, e); forall i :: 0 <= i < |s'.queue.jobs| ==> QueuedOk(s', s'.queue.jobs[i])
  {
    hide Places, After;
    var p, s' := s.threads[e.t], After(s, e);
    QueueStep(s, e);
    assert PhaseOk(s, p);
    if JobOf(p).Some? { OnlyHolder(s, e.t, p.job); }
    forall job | job in s.queue.jobs ensures QueuedOk(s', job) {
      var i :| 0 <= i < |s.queue.jobs| && s.queue.jobs[i] == job;
      assert QueuedOk(s, s.queue.jobs[i]);
      OtherJob(s, e, job);
    }
    forall i | 0 <= i < |s'.queue.jobs| ensures QueuedOk(s', s'.queue.jobs[i]) {
      var job := s'.queue.jobs[i];
      if job !in s.queue.jobs {
        assert i == |s.queue.jobs| && job == p.job;
      }
    }
  }

  /** What a step adds to the list of finished jobs. */
  lemma FinishStep(s: State, e: Event)
    requires Enabled(s, e) && ClientsOk(s) && ShutdownOk(s)
    ensures var p, s' := s.threads[e.t], After(s, e);
            && (!Finishes(e) ==> s'.finished == s.finished)
            && (Finishes(e) ==>
                  && JobOf(p).Some? && |s'.finished| == |s.finished| + 1 && s'.finished[..|s.finished|] == s.finished
                  && s'.finished[|s.finished|].0 == p.job && FinishedOk(s', s'.finished[|s.finished|]))
            && (s'.shutdown == s.shutdown || s.shutdown.None?)
  {
    hide Woken, WakeAll, Allowed;
    assert PhaseOk(s, s.threads[e.t]);
    CancelMode(s, e.t);
  }

  lemma CancelMode(s: State, t: nat)
    requires ShutdownOk(s) && t < |s.threads|
    ensures s.threads[t].Cancel? ==> s.shutdown == Some(CancelPending)
  {
    assert Allowed(s, s.threads[t]);
  }

  lemma AllFinishedOk(s: State, e: Event)
    requires Conserved(s) && ClientsOk(s) && ShutdownOk(s) && Enabled(s, e)
    ensures var s' := After(s, e); forall i :: 0 <= i < |s'.finished| ==> FinishedOk(s', s'.finished[i])
  {
    hide Places, After, ShutdownOk;
    var p, s' := s.threads[e.t], After(s, e);
    FinishStep(s, e);
    if JobOf(p).Some? { OnlyHolder(s, e.t, p.job); }
    forall i | 0 <= i < |s.finished| ensures FinishedOk(s', s.finished[i]) {
      assert FinishedOk(s, s.finished[i]);
      OtherJob(s, e, s.finished[i].0);
    }
    forall i | 0 <= i < |s'.finished| ensures FinishedOk(s', s'.finished[i]) {
      assert i < |s.finished| ==> s'.finished[i] == s.finished[i];
    }
  }

  lemma AcceptedExist(s: State, e: Event)
    requires ClientsOk(s) && Enabled(s, e)
    ensures forall job <- After(s, e).accepted :: job < |After(s, e).clients|
  {
    hide Woken, WakeAll;
    assert PhaseOk(s, s.threads[e.t]);
  }

  /** Every step treats every client as it should. */
  lemma StepClients(s: State, e: Event)
    requires Conserved(s) && ClientsOk(s) && ShutdownOk(s) && Enabled(s, e)
    ensures ClientsOk(After(s, e))
  {
    hide Places, After, Enabled, PhaseOk, QueuedOk, FinishedOk;
    OwnPhaseOk(s, e);
    forall u | 0 <= u < |s.threads| && u != e.t ensures PhaseOk(After(s, e), After(s, e).threads[u]) {
      OtherPhaseOk(s, e, u);
    }
    QueueOk(s, e);
    AllFinishedOk(s, e);
    AcceptedExist(s, e);
  }

  // ----- shutdown ----------------------------------------------------------------------------------------------

  /** What matters about a phase for waking and for shutting down. */
  datatype Role = SleepingWorker | AwakeWorker | SleepingSubmitter | AwakeSubmitter | Shutting | NoRole

  function RoleOf(p: Phase): Role {
    match p
    case PopAsleep => SleepingWorker
    case PopAwake => AwakeWorker
    case PushAsleep(_) => SleepingSubmitter
    case PushAwake(_) => AwakeSubmitter
    case Flagged => Shutting
    case Cancelling => Shutting
    case Cancel(_) => Shutting
    case Joining => Shutting
    case Returned => Shutting
    case _ => NoRole
  }

  function RolesOf(ts: seq<Phase>): seq<Role> { seq(|ts|, i requires 0 <= i < |ts| => RoleOf(ts[i])) }

  function N(ts: seq<Phase>, role: Role): nat { multiset(RolesOf(ts))[role] }

  lemma RoleSet(ts: seq<Phase>, t: nat, p: Phase, role: Role)
    requires t < |ts|
    ensures N(ts[t := p], role) + One(RoleOf(ts[t]) == role) == N(ts, role) + One(RoleOf(p) == role)
  {
    assert RolesOf(ts[t := p]) == RolesOf(ts)[t := RoleOf(p)];
    assert RolesOf(ts)[t] == RoleOf(ts[t]) && RoleOf(ts[t]) in multiset(RolesOf(ts));
  }

  lemma RoleSome(ts: seq<Phase>, role: Role)
    ensures N(ts, role) > 0 <==> exists t :: 0 <= t < |ts| && RoleOf(ts[t]) == role
  {
    if N(ts, role) > 0 {
      assert role in RolesOf(ts);
      var t :| 0 <= t < |RolesOf(ts)| && RolesOf(ts)[t] == role;
      assert RoleOf(ts[t]) == role;
    } else {
      forall t | 0 <= t < |ts| ensures RoleOf(ts[t]) != role { assert RolesOf(ts)[t] in multiset(RolesOf(ts)); }
    }
  }

  predicate AllExited(ts: seq<Phase>) { forall u :: 0 <= u < |ts| && IsWorker(ts[u]) ==> ts[u].Exited? }

  /** What a thread's phase tells about the shutdown. */
  predicate Allowed(s: State, p: Phase) {
    && (p.Flagged? ==> !s.queue.closed)
    && (p.Cancelling? || p.Cancel? ==> s.queue.closed && s.shutdown == Some(CancelPending))
    && (p.Joining? ==> s.queue.closed)
    && (p.Returned? ==> s.queue.closed && AllExited(s.threads))
    && (p.Exited? ==> s.queue.closed && s.queue.jobs == [])
    && (Asleep(p) ==> !s.queue.closed)
  }

  /** At most one call of shutdown does the work, and it does it in order. */
  predicate ShutdownOk(s: State) {
    && (forall t :: 0 <= t < |s.threads| ==> Allowed(s, s.threads[t]))
    && N(s.threads, Shutting) == One(s.shutdown.Some?)
    && (s.queue.closed ==> s.shutdown.Some?)
    && |s.queue.jobs| <= s.queue.capacity
  }

  /** While one call of shutdown is at work, no other is. */
  lemma OnlyShutter(ts: seq<Phase>, t: nat, u: nat)
    requires N(ts, Shutting) <= 1 && t < |ts| && u < |ts| && t != u && RoleOf(ts[t]) == Shutting
    ensures RoleOf(ts[u]) != Shutting
  {
    RoleSet(ts, t, Idle, Shutting);
    RoleSome(ts[t := Idle], Shutting);
    assert ts[t := Idle][u] == ts[u];
  }

  lemma ExitedStay(s: State, e: Event)
    requires Enabled(s, e) && AllExited(s.threads)
    ensures AllExited(After(s, e).threads)
  {
    forall u | 0 <= u < |s.threads| && IsWorker(After(s, e).threads[u]) ensures After(s, e).threads[u].Exited? {
      if u != e.t { OtherThread(s, e, u); }
    }
  }

  lemma OwnAllowed(s: State, e: Event)
    requires ShutdownOk(s) && Enabled(s, e)
    ensures |After(s, e).threads| == |s.threads| && Allowed(After(s, e), After(s, e).threads[e.t])
  {
    hide Woken, WakeAll, N;
    WokenLength(s.threads, if e.Push? || e.Pop? || e.CancelNext? then e.woken else None, e.t);
    assert Allowed(s, s.threads[e.t]);
    if e.Join? { ExitedStay(s, e); }
  }

  /** What a step may do to the facts that other threads' phases rely on. */
  lemma SharedStep(s: State, e: Event)
    requires Enabled(s, e)
    ensures var s' := After(s, e);
            && (s.queue.closed ==> s'.queue.closed && (s.queue.jobs == [] ==> s'.queue.jobs == []))
            && (s'.queue.closed && !s.queue.closed ==> e.CloseQueue? && s.threads[e.t].Flagged?)
            && (s'.shutdown != s.shutdown ==> e.BeginShutdown? && s.shutdown.None?)
            && s'.queue.capacity == s.queue.capacity
  {
    hide Woken, WakeAll;
  }

  lemma OtherAllowed(s: State, e: Event, u: nat)
    requires ShutdownOk(s) && Enabled(s, e) && u < |s.threads| && u != e.t
    ensures |After(s, e).threads| == |s.threads| && Allowed(After(s, e), After(s, e).threads[u])
  {
    hide After, N;
    var p := s.threads[u];
    assert Allowed(s, p);
    OtherThread(s, e, u);
    SharedStep(s, e);
    if AllExited(s.threads) { ExitedStay(s, e); }
    if e.CloseQueue? && s.threads[e.t].Flagged? && RoleOf(p) == Shutting { OnlyShutter(s.threads, e.t, u); }
  }

  lemma ShuttingStep(s: State, e: Event)
    requires ShutdownOk(s) && Enabled(s, e)
    ensures N(After(s, e).threads, Shutting) == One(After(s, e).shutdown.Some?)
    ensures |After(s, e).queue.jobs| <= After(s, e).queue.capacity
  {
    hide N, Allowed, After;
    if e.Push? || e.Pop? || e.CancelNext? {
      QueueShutting(s, e);
    } else {
      PlainShutting(s, e);
    }
  }

  lemma QueueShutting(s: State, e: Event)
    requires ShutdownOk(s) && Enabled(s, e) && (e.Push? || e.Pop? || e.CancelNext?)
    ensures N(After(s, e).threads, Shutting) == One(After(s, e).shutdown.Some?)
    ensures |After(s, e).queue.jobs| <= After(s, e).queue.capacity
  {
    hide N, Woken, WakeAll, Allowed;
    WokenLength(s.threads, e.woken, e.t);
    ShuttingMoves(s.threads, e.woken, e.t, After(s, e).threads[e.t]);
  }

  lemma PlainShutting(s: State, e: Event)
    requires ShutdownOk(s) && Enabled(s, e) && !(e.Push? || e.Pop? || e.CancelNext?)
    ensures N(After(s, e).threads, Shutting) == One(After(s, e).shutdown.Some?)
    ensures |After(s, e).queue.jobs| <= After(s, e).queue.capacity
  {
    hide N, WakeAll, Allowed;
    WokenLength(s.threads, None, e.t);
    ShuttingMoves(s.threads, None, e.t, After(s, e).threads[e.t]);
  }

  /** However others are woken, moving one thread changes the count by what that thread does. */
  lemma ShuttingMoves(ts: seq<Phase>, woken: Option<nat>, t: nat, p: Phase)
    requires t < |ts| == |Woken(ts, woken)| == |WakeAll(ts)|
    ensures var n := N(ts, Shutting) + One(RoleOf(p) == Shutting) - One(RoleOf(ts[t]) == Shutting);
            N(ts[t := p], Shutting) == N(Woken(ts, woken)[t := p], Shutting) == N(WakeAll(ts)[t := p], Shutting) == n
  {
    hide N;
    RolesWoken(ts, woken, Shutting);
    RoleSet(ts, t, p, Shutting);
    RoleSet(Woken(ts, woken), t, p, Shutting);
    RoleSet(WakeAll(ts), t, p, Shutting);
  }

  /** Waking threads does not change who is shutting down. */
  lemma RolesWoken(ts: seq<Phase>, woken: Option<nat>, role: Role)
    requires role == Shutting
    ensures N(Woken(ts, woken), role) == N(ts, role) && N(WakeAll(ts), role) == N(ts, role)
  {
    if woken.Some? && woken.value < |ts| { RoleSet(ts, woken.value, Awoken(ts[woken.value]), role); }
    ShuttingAwoken(ts);
  }

  lemma {:induction false} ShuttingAwoken(ts: seq<Phase>)
    ensures N(WakeAll(ts), Shutting) == N(ts, Shutting)
  {
    if ts != [] {
      var n := |ts| - 1;
      ShuttingAwoken(ts[..n]);
      assert RolesOf(ts) == RolesOf(ts[..n]) + [RoleOf(ts[n])];
      assert RolesOf(WakeAll(ts)) == RolesOf(WakeAll(ts[..n])) + [RoleOf(Awoken(ts[n]))];
    }
  }

  lemma StepShutdown(s: State, e: Event)
    requires ShutdownOk(s) && Enabled(s, e)
    ensures ShutdownOk(After(s, e))
  {
    hide After, N, Allowed;
    OwnAllowed(s, e);
    forall u | 0 <= u < |s.threads| && u != e.t ensures Allowed(After(s, e), After(s, e).threads[u]) {
      OtherAllowed(s, e, u);
    }
    ShuttingStep(s, e);
    SharedStep(s, e);
    if e.CloseQueue? { ShuttingIsSome(s, e.t); }
  }

  lemma ShuttingIsSome(s: State, t: nat)
    requires ShutdownOk(s) && t < |s.threads| && RoleOf(s.threads[t]) == Shutting
    ensures s.shutdown.Some?
  {
    RoleSome(s.threads, Shutting);
  }

  // ----- no lost wake-up ---------------------------------------------------------------------------------------

  /** If a worker sleeps, every queued job has a woken worker coming for it; if a submitter sleeps, every
      free slot has a woken submitter coming for it. */
  predicate NoLostWakeup(s: State) {
    && (N(s.threads, SleepingWorker) > 0 ==> N(s.threads, AwakeWorker) >= |s.queue.jobs|)
    && (N(s.threads, SleepingSubmitter) > 0 ==> N(s.threads, AwakeSubmitter) + |s.queue.jobs| >= s.queue.capacity)
  }

  /** Moving one thread changes exactly the counts of its old and its new role. */
  lemma RoleMove(ts: seq<Phase>, t: nat, p: Phase)
    requires t < |ts|
    ensures forall role :: N(ts[t := p], role) + One(RoleOf(ts[t]) == role) == N(ts, role) + One(RoleOf(p) == role)
  {
    forall role ensures N(ts[t := p], role) + One(RoleOf(ts[t]) == role) == N(ts, role) + One(RoleOf(p) == role) {
      RoleSet(ts, t, p, role);
    }
  }

  function Sleeping(workers: bool): Role { if workers then SleepingWorker else SleepingSubmitter }

  function Awake(workers: bool): Role { if workers then AwakeWorker else AwakeSubmitter }

  /** A signal turns one sleeper into a woken thread, or finds no sleeper. */
  lemma SignalCounts(ts: seq<Phase>, woken: Option<nat>, workers: bool)
    requires MayWake(ts, woken, workers)
    ensures var ts' := Woken(ts, woken);
            && (woken.None? ==> N(ts, Sleeping(workers)) == 0 && ts' == ts)
            && (woken.Some? ==> N(ts', Sleeping(workers)) == N(ts, Sleeping(workers)) - 1
                                && N(ts', Awake(workers)) == N(ts, Awake(workers)) + 1
                                && N(ts', Sleeping(!workers)) == N(ts, Sleeping(!workers))
                                && N(ts', Awake(!workers)) == N(ts, Awake(!workers)))
  {
    hide N;
    RoleSome(ts, Sleeping(workers));
    if woken.Some? { RoleMove(ts, woken.value, Awoken(ts[woken.value])); }
  }

  /** A closed queue has no sleepers. */
  lemma ClosedAwake(s: State)
    requires ShutdownOk(s) && s.queue.closed
    ensures N(s.threads, SleepingWorker) == N(s.threads, SleepingSubmitter) == 0
  {
    forall t | 0 <= t < |s.threads| ensures !Asleep(s.threads[t]) { assert Allowed(s, s.threads[t]); }
    RoleSome(s.threads, SleepingWorker);
    RoleSome(s.threads, SleepingSubmitter);
  }

  lemma PushWakes(s: State, e: Event)
    requires NoLostWakeup(s) && ShutdownOk(s) && Enabled(s, e) && e.Push?
    ensures NoLostWakeup(After(s, e))
  {
    hide N, Woken, Allowed;
    var ts, s' := s.threads, After(s, e);
    WokenLength(ts, e.woken, e.t);
    RoleMove(ts, e.t, s'.threads[e.t]);
    if s.queue.closed { ClosedAwake(s); }
    if PushResult(s, ts[e.t]).1.Pushed? {
      SignalCounts(ts, e.woken, true);
      RoleMove(Woken(ts, e.woken), e.t, s'.threads[e.t]);
    }
  }

  lemma PopWakes(s: State, e: Event)
    requires NoLostWakeup(s) && ShutdownOk(s) && Enabled(s, e) && (e.Pop? || e.CancelNext?)
    ensures NoLostWakeup(After(s, e))
  {
    hide N, Woken, Allowed;
    var ts, s' := s.threads, After(s, e);
    WokenLength(ts, e.woken, e.t);
    RoleMove(ts, e.t, s'.threads[e.t]);
    if s.queue.jobs != [] {
      SignalCounts(ts, e.woken, false);
      RoleMove(Woken(ts, e.woken), e.t, s'.threads[e.t]);
    }
  }

  lemma OtherWakes(s: State, e: Event)
    requires NoLostWakeup(s) && ShutdownOk(s) && Enabled(s, e) && !e.Push? && !e.Pop? && !e.CancelNext? &&
             !e.CloseQueue?
    ensures NoLostWakeup(After(s, e))
  {
    hide N, Allowed;
    RoleMove(s.threads, e.t, After(s, e).threads[e.t]);
  }

  lemma StepWakes(s: State, e: Event)
    requires NoLostWakeup(s) && ShutdownOk(s) && Enabled(s, e)
    ensures NoLostWakeup(After(s, e))
  {
    hide NoLostWakeup, ShutdownOk;
    if e.Push? {
      PushWakes(s, e);
    } else if e.Pop? || e.CancelNext? {
      PopWakes(s, e);
    } else if e.CloseQueue? {
      CloseWakes(s, e);
    } else {
      OtherWakes(s, e);
    }
  }

  lemma CloseWakes(s: State, e: Event)
    requires ShutdownOk(s) && Enabled(s, e) && e.CloseQueue?
    ensures NoLostWakeup(After(s, e))
  {
    hide N, ShutdownOk;
    StepShutdown(s, e);
    ClosedAwake(After(s, e));
  }

  // ----- whole runs -----------------------------------------------------------------------------------------------

  predicate HasWorker(ts: seq<Phase>) { exists t :: 0 <= t < |ts| && IsWorker(ts[t]) }

  ghost predicate Inv(s: State) {
    Conserved(s) && ClientsOk(s) && ShutdownOk(s) && NoLostWakeup(s) && HasWorker(s.threads)
  }

  lemma WorkersStay(s: State, e: Event)
    requires Enabled(s, e) && HasWorker(s.threads)
    ensures HasWorker(After(s, e).threads)
  {
    var w :| 0 <= w < |s.threads| && IsWorker(s.threads[w]);
    if w != e.t { OtherThread(s, e, w); } else { WokenLength(s.threads, if e.Pop? then e.woken else None, w); }
    assert IsWorker(After(s, e).threads[w]);
  }

  /** Every step of every thread keeps the invariant. */
  lemma StepInv(s: State, e: Event)
    requires Inv(s) && Enabled(s, e)
    ensures Inv(After(s, e))
  {
    hide After, Enabled, Conserved, ClientsOk, ShutdownOk, NoLostWakeup, HasWorker;
    StepConserved(s, e);
    StepClients(s, e);
    StepShutdown(s, e);
    StepWakes(s, e);
    WorkersStay(s, e);
  }

  /** An idle pool: any number of acceptors, workers (at least one) and future callers of shutdown. */
  predicate Initial(s: State) {
    && s.queue.jobs == [] && s.queue.capacity > 0 && !s.queue.closed && s.shutdown.None?
    && s.clients == [] && s.accepted == {} && s.finished == []
    && (forall t :: 0 <= t < |s.threads| ==> s.threads[t].Idle? || s.threads[t].Popping? || s.threads[t].Calling?)
    && HasWorker(s.threads)
  }

  lemma InitialInv(s: State)
    requires Initial(s)
    ensures Inv(s)
  {
    hide Places, N;
    forall job: nat ensures Places(s, job) == 0 { InitialPlaces(s, job); }
    RoleSome(s.threads, Shutting);
    RoleSome(s.threads, SleepingWorker);
    RoleSome(s.threads, SleepingSubmitter);
  }

  lemma InitialPlaces(s: State, job: nat)
    requires Initial(s)
    ensures Places(s, job) == 0
  {
    assert forall i :: 0 <= i < |s.threads| ==> JobsOf(s.threads)[i] == None;
    assert Some(job) !in JobsOf(s.threads) && job !in s.queue.jobs && job !in FinishedJobs(s.finished);
  }

  ghost predicate Possible(s: State, es: seq<Event>)
    decreases |es|
  {
    es == [] || (Enabled(s, es[0]) && Possible(After(s, es[0]), es[1..]))
  }

  ghost function Run(s: State, es: seq<Event>): State
    requires Possible(s, es)
    decreases |es|
  {
    if es == [] then s else Run(After(s, es[0]), es[1..])
  }

  lemma {:induction false} RunInv(s: State, es: seq<Event>)
    requires Inv(s) && Possible(s, es)
    ensures Inv(Run(s, es))
    decreases |es|
  {
    hide Inv, After, Enabled;
    if es != [] {
      StepInv(s, es[0]);
      RunInv(After(s, es[0]), es[1..]);
    }
  }

  /** In every reachable state every job is in exactly one place and has been finished at most once, and a
      finished client has been closed and freed exactly once, whether served, cancelled or rejected. */
  lemma JobsConserved(s0: State, es: seq<Event>, job: nat)
    requires Initial(s0) && Possible(s0, es)
    ensures var s := Run(s0, es);
            && Queued(s.queue.jobs, job) + Held(s.threads, job) + Ended(s.finished, job) == One(job < |s.clients|)
            && (forall i :: 0 <= i < |s.finished| && s.finished[i].0 == job ==>
                  job < |s.clients| && s.clients[job] == Client(false, 1, 1) &&
                      (s.finished[i].1 == Rejected <==> job !in s.accepted))
            && (job in s.queue.jobs ==> job in s.accepted && s.clients[job] == NEW)
  {
    InitialInv(s0);
    RunInv(s0, es);
    hide Run, Possible, Initial, ShutdownOk, NoLostWakeup, Held, Ended, Queued;
    var s := Run(s0, es);
    assert Places(s, job) == One(job < |s.clients|);
    forall i | 0 <= i < |s.finished| && s.finished[i].0 == job
      ensures job < |s.clients| && s.clients[job] == Client(false, 1, 1) &&
              (s.finished[i].1 == Rejected <==> job !in s.accepted)
    {
      assert FinishedOk(s, s.finished[i]);
    }
    if job in s.queue.jobs {
      var i :| 0 <= i < |s.queue.jobs| && s.queue.jobs[i] == job;
      assert QueuedOk(s, s.queue.jobs[i]);
    }
  }

  // ----- calls of shutdown --------------------------------------------------------------------------------

  predicate HasReturned(p: Phase) { p.Returned? || p.ReturnedEarly? }

  /** A call that has found another one at work has returned, and a call at work stays the one at work. */
  lemma CallStep(s: State, e: Event, t: nat)
    requires Enabled(s, e) && t < |s.threads|
    ensures var s' := After(s, e);
            && |s'.threads| == |s.threads|
            && (s.threads[t].ReturnedEarly? ==> s'.threads[t].ReturnedEarly?)
            && (RoleOf(s.threads[t]) == Shutting ==> RoleOf(s'.threads[t]) == Shutting)
            && (s.shutdown.Some? ==> s'.shutdown == s.shutdown)
  {
    hide Woken, WakeAll;
    if t != e.t {
      OtherThread(s, e, t);
    } else {
      WokenLength(s.threads, if e.Push? || e.Pop? || e.CancelNext? then e.woken else None, t);
    }
  }

  lemma {:induction false} CallRun(s: State, es: seq<Event>, t: nat)
    requires Possible(s, es) && t < |s.threads|
    ensures var s' := Run(s, es);
            && |s'.threads| == |s.threads|
            && (s.threads[t].ReturnedEarly? ==> s'.threads[t].ReturnedEarly?)
            && (RoleOf(s.threads[t]) == Shutting ==> RoleOf(s'.threads[t]) == Shutting)
            && (s.shutdown.Some? ==> s'.shutdown == s.shutdown)
    decreases |es|
  {
    hide Enabled, After;
    if es != [] {
      CallStep(s, es[0], t);
      CallRun(After(s, es[0]), es[1..], t);
    }
  }

  /** A call of shutdown returns early exactly when shutdown had been started before it. */
  lemma ReturnsEarlyIff(s: State, t: nat, mode: Mode, es: seq<Event>)
    requires Enabled(s, BeginShutdown(t, mode)) && Possible(After(s, BeginShutdown(t, mode)), es)
    ensures var s' := Run(After(s, BeginShutdown(t, mode)), es);
            && t < |s'.threads| && (s'.threads[t].ReturnedEarly? <==> s.shutdown.Some?)
            && (s.shutdown.None? ==> s'.shutdown == Some(mode))
  {
    hide Run, Possible;
    CallRun(After(s, BeginShutdown(t, mode)), es, t);
  }

  /** What a call of shutdown promises about an accepted job. */
  ghost predicate JobDone(s: State, job: nat, mode: Mode) {
    && job !in s.queue.jobs && Held(s.threads, job) == 0 && Ended(s.finished, job) == 1
    && job < |s.clients| && s.clients[job] == Client(false, 1, 1)
    && forall i :: 0 <= i < |s.finished| && s.finished[i].0 == job ==>
         !s.finished[i].1.Rejected? && (mode.Drain? ==> s.finished[i].1.Finished?)
  }

  /** When a call of shutdown that was the first has returned, the queue is empty and every accepted job has
      been finished exactly once, served or cancelled; if it was to drain, none was cancelled. */
  lemma ShutdownFinishesAll(s0: State, before: seq<Event>, t: nat, mode: Mode, es: seq<Event>)
    requires Initial(s0) && Possible(s0, before)
    requires var s := Run(s0, before);
             && Enabled(s, BeginShutdown(t, mode)) && s.shutdown.None?
             && Possible(After(s, BeginShutdown(t, mode)), es)
             && var s' := Run(After(s, BeginShutdown(t, mode)), es);
                t < |s'.threads| && HasReturned(s'.threads[t])
    ensures var s' := Run(After(Run(s0, before), BeginShutdown(t, mode)), es);
            s'.queue.jobs == [] && forall job <- s'.accepted :: JobDone(s', job, mode)
  {
    InitialInv(s0);
    RunInv(s0, before);
    hide Run, Possible, Initial, Inv, JobDone;
    var s := Run(s0, before);
    var s1 := After(s, BeginShutdown(t, mode));
    StepInv(s, BeginShutdown(t, mode));
    RunInv(s1, es);
    ReturnsEarlyIff(s, t, mode, es);
    var s' := Run(s1, es);
    ReturnedEmpty(s', t);
    forall job <- s'.accepted ensures JobDone(s', job, mode) { FirstCallDone(s', t, mode, job); }
  }

  lemma ReturnedEmpty(s: State, t: nat)
    requires Inv(s) && t < |s.threads| && s.threads[t].Returned?
    ensures s.queue.jobs == []
  {
    hide N, Conserved, ClientsOk, NoLostWakeup;
    assert Allowed(s, s.threads[t]);
    var w :| 0 <= w < |s.threads| && IsWorker(s.threads[w]);
    assert Allowed(s, s.threads[w]);
  }

  lemma FirstCallDone(s: State, t: nat, mode: Mode, job: nat)
    requires Inv(s) && t < |s.threads| && s.threads[t].Returned? && s.shutdown == Some(mode) && job in s.accepted
    ensures JobDone(s, job, mode)
  {
    hide Inv;
    ReturnedMeansDone(s, t, job);
  }

  /** A later call promises nothing: here it returns while an accepted job is still queued. */
  lemma EarlyReturn() returns (s0: State, es: seq<Event>)
    ensures Initial(s0) && Possible(s0, es)
    ensures var s := Run(s0, es);
            |s.threads| > 2 && s.threads[2].ReturnedEarly? && s.accepted == {0} && s.queue.jobs == [0] &&
                s.finished == []
  {
    hide After, Enabled, Snapshot, Initial, Run, Possible;
    SnapshotStart();
    SnapshotEnd();
    JobArrives();
    SecondCall();
    s0 := Snapshot([], Idle, Calling, Calling, None, []);
    var s4 := Snapshot([0], Idle, Calling, Flagged, Some(Drain), [NEW]);
    RunEmpty(After(s4, BeginShutdown(2, Drain)));
    RunCons(s4, BeginShutdown(2, Drain), []);
    es := [BeginShutdown(2, Drain)] + [];
    RunCons(Snapshot([0], Idle, Calling, Calling, None, [NEW]), BeginShutdown(3, Drain), es);
    es := [BeginShutdown(3, Drain)] + es;
    RunCons(Snapshot([], Pushing(0, false), Calling, Calling, None, [NEW]), Push(0, None), es);
    es := [Push(0, None)] + es;
    RunCons(Snapshot([], Offering(0), Calling, Calling, None, [NEW]), CheckAccepting(0, false), es);
    es := [CheckAccepting(0, false)] + es;
    RunCons(s0, Arrive(0), es);
    es := [Arrive(0)] + es;
  }

  lemma SnapshotStart()
    ensures Initial(Snapshot([], Idle, Calling, Calling, None, []))
  {
    assert IsWorker(Snapshot([], Idle, Calling, Calling, None, []).threads[1]);
  }

  lemma SnapshotEnd()
    ensures var s := Snapshot([0], Idle, ReturnedEarly, Flagged, Some(Drain), [NEW]);
            && |s.threads| > 2 && s.threads[2].ReturnedEarly?
            && s.accepted == {0} && s.queue.jobs == [0] && s.finished == []
  {
  }

  /** A small pool: one acceptor, one worker, two callers of shutdown. */
  function Snapshot(jobs: seq<nat>, acceptor: Phase, first: Phase, second: Phase, shutdown: Option<Mode>,
      clients: seq<Client>): State {
    State(Queue(jobs, 1, false), shutdown, [acceptor, Popping, first, second], clients, set job | job in jobs, [])
  }

  lemma JobArrives()
    ensures var s0, s1 := Snapshot([], Idle, Calling, Calling, None, []),
            Snapshot([], Offering(0), Calling, Calling, None, [NEW]);
            Enabled(s0, Arrive(0)) && After(s0, Arrive(0)) == s1
    ensures var s1, s2 := Snapshot([], Offering(0), Calling, Calling, None, [NEW]),
            Snapshot([], Pushing(0, false), Calling, Calling, None, [NEW]);
            Enabled(s1, CheckAccepting(0, false)) && After(s1, CheckAccepting(0, false)) == s2
    ensures var s2, s3 := Snapshot([], Pushing(0, false), Calling, Calling, None, [NEW]),
            Snapshot([0], Idle, Calling, Calling, None, [NEW]);
            Enabled(s2, Push(0, None)) && After(s2, Push(0, None)) == s3
  {
  }

  lemma SecondCall()
    ensures var s3, s4 := Snapshot([0], Idle, Calling, Calling, None, [NEW]),
            Snapshot([0], Idle, Calling, Flagged, Some(Drain), [NEW]);
            Enabled(s3, BeginShutdown(3, Drain)) && After(s3, BeginShutdown(3, Drain)) == s4
    ensures var s4, s5 := Snapshot([0], Idle, Calling, Flagged, Some(Drain), [NEW]),
            Snapshot([0], Idle, ReturnedEarly, Flagged, Some(Drain), [NEW]);
            Enabled(s4, BeginShutdown(2, Drain)) && After(s4, BeginShutdown(2, Drain)) == s5
  {
  }

  lemma RunEmpty(s: State)
    ensures Possible(s, []) && Run(s, []) == s
  {
  }

  lemma RunCons(s: State, e: Event, es: seq<Event>)
    requires Enabled(s, e) && Possible(After(s, e), es)
    ensures Possible(s, [e] + es) && Run(s, [e] + es) == Run(After(s, e), es)
  {
    hide Enabled, After;
    assert ([e] + es)[1..] == es;
  }

  lemma ReturnedMeansDone(s: State, t: nat, job: nat)
    requires Inv(s) && t < |s.threads| && s.threads[t].Returned? && job in s.accepted
    ensures s.queue.jobs == [] && Held(s.threads, job) == 0 && Ended(s.finished, job) == 1
    ensures job < |s.clients| && s.clients[job] == Client(false, 1, 1)
    ensures forall i :: 0 <= i < |s.finished| && s.finished[i].0 == job ==>
              !s.finished[i].1.Rejected? && (s.shutdown == Some(Drain) ==> s.finished[i].1.Finished?)
  {
    hide NoLostWakeup, N, FinishedOk;
    assert Allowed(s, s.threads[t]);
    var w :| 0 <= w < |s.threads| && IsWorker(s.threads[w]);
    assert Allowed(s, s.threads[w]);
    NobodyHolds(s, t, job);
    assert Places(s, job) == 1;
    assert Ended(s.finished, job) == 1;
    EndedWitness(s.finished, job);
    FinishedFacts(s, job);
  }

  lemma NobodyHolds(s: State, t: nat, job: nat)
    requires ClientsOk(s) && ShutdownOk(s) && t < |s.threads| && s.threads[t].Returned? && job in s.accepted
    ensures Held(s.threads, job) == 0
  {
    hide N;
    assert Allowed(s, s.threads[t]);
    forall u | 0 <= u < |s.threads| ensures JobsOf(s.threads)[u] != Some(job) {
      assert PhaseOk(s, s.threads[u]);
      if s.threads[u].Cancel? { OnlyShutter(s.threads, t, u); }
    }
  }

  lemma EndedWitness(fs: seq<(nat, JobResult)>, job: nat)
    requires Ended(fs, job) > 0
    ensures exists i :: 0 <= i < |fs| && fs[i].0 == job
  {
    assert job in FinishedJobs(fs);
    var i :| 0 <= i < |FinishedJobs(fs)| && FinishedJobs(fs)[i] == job;
    assert fs[i].0 == job;
  }

  lemma FinishedFacts(s: State, job: nat)
    requires ClientsOk(s) && job in s.accepted
    requires exists i :: 0 <= i < |s.finished| && s.finished[i].0 == job
    ensures job < |s.clients| && s.clients[job] == Client(false, 1, 1)
    ensures forall i :: 0 <= i < |s.finished| && s.finished[i].0 == job ==>
              !s.finished[i].1.Rejected? && (s.shutdown == Some(Drain) ==> s.finished[i].1.Finished?)
  {
    assert forall i :: 0 <= i < |s.finished| ==> FinishedOk(s, s.finished[i]);
  }

  // ----- progress -------------------------------------------------------------------------------------------------

  /** A queued job is not stuck while a worker sleeps: a woken worker's next step takes the oldest job. */
  lemma JobWillBeTaken(s0: State, es: seq<Event>) returns (e: Event)
    requires Initial(s0) && Possible(s0, es)
    requires var s := Run(s0, es); s.queue.jobs != [] && exists t :: 0 <= t < |s.threads| && s.threads[t].PopAsleep?
    ensures var s := Run(s0, es);
            e.Pop? && Enabled(s, e) && After(s, e).threads[e.t] == Assigned(s.queue.jobs[0])
  {
    InitialInv(s0);
    RunInv(s0, es);
    hide Run, Possible, Initial;
    e := AwakeWorkerPops(Run(s0, es));
  }

  lemma AwakeWorkerPops(s: State) returns (e: Event)
    requires NoLostWakeup(s) && s.queue.jobs != [] && exists t :: 0 <= t < |s.threads| && s.threads[t].PopAsleep?
    ensures e.Pop? && Enabled(s, e) && After(s, e).threads[e.t] == Assigned(s.queue.jobs[0])
  {
    hide N;
    var u :| 0 <= u < |s.threads| && s.threads[u].PopAsleep?;
    assert RoleOf(s.threads[u]) == SleepingWorker;
    RoleSome(s.threads, SleepingWorker);
    RoleSome(s.threads, AwakeWorker);
    var t :| 0 <= t < |s.threads| && RoleOf(s.threads[t]) == AwakeWorker;
    e := Pop(t, SomeSleeper(s.threads, false));
  }

  /** Whom a signal wakes. */
  ghost function SomeSleeper(ts: seq<Phase>, workers: bool): (woken: Option<nat>)
    ensures MayWake(ts, woken, workers)
  {
    if exists w :: 0 <= w < |ts| && (if workers then ts[w].PopAsleep? else ts[w].PushAsleep?)
    then var w :| 0 <= w < |ts| && (if workers then ts[w].PopAsleep? else ts[w].PushAsleep?); Some(w)
    else None
  }

  /** A blocked submitter is not stuck while a slot is free: a woken submitter's next step enqueues its job. */
  lemma SlotWillBeUsed(s0: State, es: seq<Event>) returns (e: Event)
    requires Initial(s0) && Possible(s0, es)
    requires var s := Run(s0, es);
             |s.queue.jobs| < s.queue.capacity && exists t :: 0 <= t < |s.threads| && s.threads[t].PushAsleep?
    ensures var s := Run(s0, es);
            && e.Push? && Enabled(s, e) && s.threads[e.t].PushAwake?
            && After(s, e).queue.jobs == s.queue.jobs + [s.threads[e.t].job] &&
                 s.threads[e.t].job in After(s, e).accepted
  {
    InitialInv(s0);
    RunInv(s0, es);
    hide Run, Possible, Initial;
    e := AwakeSubmitterPushes(Run(s0, es));
  }

  lemma AwakeSubmitterPushes(s: State) returns (e: Event)
    requires NoLostWakeup(s) && ShutdownOk(s)
    requires |s.queue.jobs| < s.queue.capacity && exists t :: 0 <= t < |s.threads| && s.threads[t].PushAsleep?
    ensures e.Push? && Enabled(s, e) && s.threads[e.t].PushAwake?
    ensures After(s, e).queue.jobs == s.queue.jobs + [s.threads[e.t].job] && s.threads[e.t].job in After(s, e).accepted
  {
    hide N;
    var u :| 0 <= u < |s.threads| && s.threads[u].PushAsleep?;
    assert Allowed(s, s.threads[u]);
    assert RoleOf(s.threads[u]) == SleepingSubmitter;
    RoleSome(s.threads, SleepingSubmitter);
    RoleSome(s.threads, AwakeSubmitter);
    var t :| 0 <= t < |s.threads| && RoleOf(s.threads[t]) == AwakeSubmitter;
    e := Push(t, SomeSleeper(s.threads, true));
  }

  // ----- what the steps of the queue do ----------------------------------------------------------------------------

  predicate Blocking(p: Phase) { p.PushAwake? || (p.Pushing? && p.blocking) }

  /** A submitter's job is refused exactly when the queue is closed, or is full and the submitter does not wait;
      with a free slot it is enqueued behind all others, whether the submitter would wait or not. */
  lemma PushOutcome(s: State, e: Event)
    requires e.Push? && Enabled(s, e) && |s.queue.jobs| <= s.queue.capacity
    ensures var s', p := After(s, e), s.threads[e.t];
            && |s'.threads| == |s.threads| && s'.queue.closed == s.queue.closed
            && (s'.threads[e.t] == Refused(p.job) <==>
                  s.queue.closed || (|s.queue.jobs| == s.queue.capacity && !Blocking(p)))
            && (s'.threads[e.t] == PushAsleep(p.job) <==>
                  !s.queue.closed && |s.queue.jobs| == s.queue.capacity && Blocking(p))
            && (s'.threads[e.t] == Idle <==> !s.queue.closed && |s.queue.jobs| < s.queue.capacity)
            && s'.queue.jobs == (if s'.threads[e.t].Idle? then s.queue.jobs + [p.job] else s.queue.jobs)
            && s'.accepted == (if s'.threads[e.t].Idle? then s.accepted + {p.job} else s.accepted)
  {
    hide Woken;
    WokenLength(s.threads, e.woken, e.t);
  }

  /** In every reachable state. */
  lemma PushRefusedIff(s0: State, es: seq<Event>, e: Event)
    requires Initial(s0) && Possible(s0, es) && e.Push? && Enabled(Run(s0, es), e)
    ensures var s := Run(s0, es); var s', p := After(s, e), s.threads[e.t];
            && |s'.threads| == |s.threads|
            && (s'.threads[e.t] == Refused(p.job) <==>
                  s.queue.closed || (|s.queue.jobs| == s.queue.capacity && !Blocking(p)))
            && (!s.queue.closed && |s.queue.jobs| < s.queue.capacity ==>
                  s'.queue.jobs == s.queue.jobs + [p.job] && p.job in s'.accepted)
  {
    InitialInv(s0);
    RunInv(s0, es);
    hide Run, Possible, Initial, Conserved, ClientsOk, NoLostWakeup, Enabled, After;
    PushOutcome(Run(s0, es), e);
  }

  /** An offered job is refused without looking at the queue exactly when shutdown has begun. */
  lemma OfferOutcome(s: State, e: Event)
    requires e.CheckAccepting? && Enabled(s, e)
    ensures var s', job := After(s, e), s.threads[e.t].job;
            && |s'.threads| == |s.threads| && s'.queue == s.queue
            && (s.shutdown == None ==> s'.threads[e.t] == Pushing(job, e.blocking))
            && (s.shutdown != None ==> s'.threads[e.t] == Refused(job))
  {
  }

  /** A worker takes the oldest job; without one it sleeps, or ends if the queue is closed. */
  lemma PopOutcome(s: State, e: Event)
    requires e.Pop? && Enabled(s, e)
    ensures var s' := After(s, e);
            && |s'.threads| == |s.threads|
            && (s.queue.jobs != [] ==>
                  s'.threads[e.t] == Assigned(s.queue.jobs[0]) && s.queue.jobs == [s.queue.jobs[0]] + s'.queue.jobs)
            && (s.queue.jobs == [] ==>
                  s'.queue == s.queue && s'.threads[e.t] == if s.queue.closed then Exited else PopAsleep)
  {
    hide Woken;
    WokenLength(s.threads, e.woken, e.t);
  }

  /** A shutdown that is to cancel takes out the queued jobs one by one, oldest first, and finishes each as
      cancelled before it waits for the workers; one that is to drain waits at once. */
  lemma ShutdownOutcome(s: State, e: Event)
    requires Enabled(s, e)
    ensures var s', p := After(s, e), s.threads[e.t];
            && |s'.threads| == |s.threads|
            && (e.CloseQueue? ==>
                  s'.queue.closed && s'.queue.jobs == s.queue.jobs
                  && s'.threads[e.t] == if s.shutdown == Some(CancelPending) then Cancelling else Joining)
            && (e.CancelNext? && s.queue.jobs == [] ==> s'.threads[e.t] == Joining && s'.queue == s.queue)
            && (e.CancelNext? && s.queue.jobs != [] ==>
                  s'.threads[e.t] == Cancel(s.queue.jobs[0]) && s.queue.jobs == [s.queue.jobs[0]] + s'.queue.jobs)
            && (e.FinishCancelled? ==>
                  s'.threads[e.t] == Cancelling && s'.finished == s.finished + [(p.job, Cancelled)])
  {
    hide Woken, WakeAll;
    WokenLength(s.threads, if e.Push? || e.Pop? || e.CancelNext? then e.woken else None, e.t);
  }

  /** A worker serves its job, closes the client once and reports what serving returned. */
  lemma ServeOutcome(s: State, e: Event)
    requires Enabled(s, e) && (e.TakeClient? || e.Serve? || e.Finish?)
    ensures var s', job := After(s, e), s.threads[e.t].job;
            && |s'.threads| == |s.threads|
            && (e.TakeClient? ==> s'.threads[e.t] == Running(job) && s'.finished == s.finished)
            && (e.Serve? ==> s'.threads[e.t] == Served(job) && s'.finished == s.finished)
            && (e.Finish? ==> s'.threads[e.t] == Popping && s'.finished == s.finished + [(job, Finished(e.ok))])
  {
  }

  // ----- shutdown terminates --------------------------------------------------------------------------------------

  /** How many steps a thread has left once the queue is closed, leaving aside jobs it may still pop. */
  function Weight(p: Phase): nat {
    match p
    case Popping => 1
    case PopAsleep => 1
    case PopAwake => 1
    case Assigned(_) => 4
    case Running(_) => 3
    case Served(_) => 2
    case Cancelling => 2
    case Cancel(_) => 3
    case Joining => 1
    case _ => 0
  }

  function Weights(ts: seq<Phase>): nat {
    if ts == [] then 0 else Weights(ts[..|ts| - 1]) + Weight(ts[|ts| - 1])
  }

  /** How many steps of workers and of shutdown are left at most. */
  function Measure(s: State): nat { 4 * |s.queue.jobs| + Weights(s.threads) }

  lemma {:induction false} WeightsSet(ts: seq<Phase>, t: nat, p: Phase)
    requires t < |ts|
    ensures Weights(ts[t := p]) + Weight(ts[t]) == Weights(ts) + Weight(p)
  {
    var n := |ts| - 1;
    if t == n {
      assert ts[t := p][..n] == ts[..n];
    } else {
      assert ts[t := p][..n] == ts[..n][t := p];
      WeightsSet(ts[..n], t, p);
    }
  }

  lemma WeightsWoken(ts: seq<Phase>, woken: Option<nat>)
    ensures Weights(Woken(ts, woken)) == Weights(ts)
  {
    if woken.Some? && woken.value < |ts| { WeightsSet(ts, woken.value, Awoken(ts[woken.value])); }
  }

  /** Steps of the workers and of the call of shutdown that does the work. */
  predicate PoolStep(e: Event) {
    e.Pop? || e.TakeClient? || e.Serve? || e.Finish? || e.CancelNext? || e.FinishCancelled? || e.Join?
  }

  lemma MeasureStep(s: State, e: Event)
    requires ShutdownOk(s) && s.queue.closed && Enabled(s, e)
    ensures After(s, e).queue.closed && Measure(After(s, e)) + One(PoolStep(e)) <= Measure(s)
  {
    hide N, Weights, Woken, WakeAll;
    var ts, s' := s.threads, After(s, e);
    var woken := if e.Push? || e.Pop? || e.CancelNext? then e.woken else None;
    assert Allowed(s, ts[e.t]);
    WokenLength(ts, woken, e.t);
    WeightsSet(ts, e.t, s'.threads[e.t]);
    WeightsWoken(ts, woken);
    WeightsSet(Woken(ts, woken), e.t, s'.threads[e.t]);
  }

  ghost function PoolSteps(es: seq<Event>): nat {
    if es == [] then 0 else One(PoolStep(es[0])) + PoolSteps(es[1..])
  }

  /** Once the queue is closed, workers and shutdown together take at most `Measure` further steps,
      whatever the submitters do. */
  lemma {:induction false} BoundedShutdown(s: State, es: seq<Event>)
    requires Inv(s) && s.queue.closed && Possible(s, es)
    ensures PoolSteps(es) + Measure(Run(s, es)) <= Measure(s)
    decreases |es|
  {
    hide Enabled, After, Conserved, ClientsOk, ShutdownOk, NoLostWakeup, Measure, PoolStep;
    if es != [] {
      StepInv(s, es[0]);
      MeasureStep(s, es[0]);
      BoundedShutdown(After(s, es[0]), es[1..]);
    }
  }

  /** And until shutdown has returned one of them can take a step. */
  lemma ShutdownNeverStuck(s: State) returns (e: Event)
    requires Inv(s) && s.queue.closed && forall t :: 0 <= t < |s.threads| ==> !s.threads[t].Returned?
    ensures PoolStep(e) && Enabled(s, e)
  {
    hide N, NoLostWakeup, Conserved;
    RoleSome(s.threads, Shutting);
    var t :| 0 <= t < |s.threads| && RoleOf(s.threads[t]) == Shutting;
    assert Allowed(s, s.threads[t]) && PhaseOk(s, s.threads[t]);
    if s.threads[t].Cancelling? {
      e := CancelNext(t, SomeSleeper(s.threads, false));
    } else if s.threads[t].Cancel? {
      e := FinishCancelled(t);
    } else if AllExited(s.threads) {
      e := Join(t);
    } else {
      var w :| 0 <= w < |s.threads| && IsWorker(s.threads[w]) && !s.threads[w].Exited?;
      assert Allowed(s, s.threads[w]);
      e := WorkerMoves(s, w);
    }
  }

  /** Nor does a queued job ever get stuck, whether the queue is open or closed: while there is one, some
      worker or the shutdown can take a step. */
  lemma QueuedJobMoves(s0: State, es: seq<Event>) returns (e: Event)
    requires Initial(s0) && Possible(s0, es) && Run(s0, es).queue.jobs != []
    ensures PoolStep(e) && Enabled(Run(s0, es), e)
  {
    InitialInv(s0);
    RunInv(s0, es);
    hide Run, Possible, Initial, PoolStep;
    e := SomeWorkerMoves(Run(s0, es));
  }

  lemma SomeWorkerMoves(s: State) returns (e: Event)
    requires Inv(s) && s.queue.jobs != []
    ensures PoolStep(e) && Enabled(s, e)
  {
    hide N, Conserved, ClientsOk, NoLostWakeup;
    var w :| 0 <= w < |s.threads| && IsWorker(s.threads[w]);
    assert Allowed(s, s.threads[w]);
    if s.threads[w].PopAsleep? {
      e := AwakeWorkerPops(s);
    } else {
      e := WorkerMoves(s, w);
    }
  }

  lemma WorkerMoves(s: State, w: nat) returns (e: Event)
    requires ClientsOk(s) && w < |s.threads| && IsWorker(s.threads[w])
    requires !s.threads[w].Exited? && !s.threads[w].PopAsleep?
    ensures PoolStep(e) && Enabled(s, e)
  {
    var p := s.threads[w];
    assert PhaseOk(s, p);
    if p.Assigned? {
      e := TakeClient(w);
    } else if p.Running? {
      e := Serve(w);
    } else if p.Served? {
      e := Finish(w, true);
    } else {
      e := Pop(w, SomeSleeper(s.threads, false));
    }
  }
}
