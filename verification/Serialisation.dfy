/** Server workers answering queries concurrently (`runtime_execute_query` in
    `SERVER-RUNTIME/src/db_server_runtime.c`): each classifies its SQL text, acquires the lock, runs the
    engine in small steps on the shared tables and releases the lock.  Under SERIAL_ALL, the policy of the
    server, every interleaving has the effect of running the queries one at a time. */
module Serialisation {
  import opened Basics
  import opened TableFile
  import opened Database
  import opened EngineSteps
  import DatabaseRuns
  import Sql
  import C = LockClassifier
  import LM = LockManager

  // ----- the reference: one query at a time -----------------------------------------------------------

  /** The tables after running the queries in this order. */
  function SerialDb(catalog: Catalog, db: Db, log: seq<Query>): Db
    decreases |log|
  {
    if log == [] then db else
    var n := |log| - 1;
    Execute(catalog, SerialDb(catalog, db, log[..n]), log[n]).0
  }

  /** What the query in this place of the order is answered. */
  function SerialReply(catalog: Catalog, db: Db, log: seq<Query>, slot: nat): Reply
    requires slot < |log|
  {
    Execute(catalog, SerialDb(catalog, db, log[..slot]), log[slot]).1
  }

  lemma SerialSnoc(catalog: Catalog, db: Db, log: seq<Query>, q: Query)
    ensures SerialDb(catalog, db, log + [q]) == Execute(catalog, SerialDb(catalog, db, log), q).0
    ensures SerialReply(catalog, db, log + [q], |log|) == Execute(catalog, SerialDb(catalog, db, log), q).1
    ensures forall slot :: 0 <= slot < |log| ==>
              SerialReply(catalog, db, log + [q], slot) == SerialReply(catalog, db, log, slot)
  {
    hide Execute;
    assert (log + [q])[..|log|] == log;
    forall slot | 0 <= slot < |log| ensures SerialReply(catalog, db, log + [q], slot) ==
        SerialReply(catalog, db, log, slot) {
      assert (log + [q])[..slot] == log[..slot];
    }
  }

  // ----- the step system ---------------------------------------------------------------------------------

  /** What a worker is doing: nothing, serving a client, waiting for the lock, or working on the query that
      got the lock as number `slot`. */
  datatype Activity =
    | Resting
    | Serving
    | Requesting(q: Query)
    | Working(q: Query, slot: nat, work: Work)

  /** `log` lists the queries in the order in which they got the lock; `replies` holds the answers that
      have been given, by place in the log. */
  datatype State = State(locks: LM.State, workers: seq<Activity>, db: Db, log: seq<Query>, replies: map<nat, Reply>)

  /** A worker acquires and releases the lock in this mode around a whole job. */
  const JOB_MODE := C.NoLock

  /** Serving a client, a worker may execute any number of queries. */
  datatype Event =
    | TakeJob(t: nat)
    | EndJob(t: nat)
    | Ask(t: nat, q: Query)
    | Retry(t: nat)
    | Stir(t: nat)
    | Step(t: nat)
    | Leave(t: nat, woken: Option<nat>)

  /** Steps that wait for the lock or give it back. */
  predicate IsLockStep(e: Event) { e.Ask? || e.Retry? || e.Stir? || e.Leave? }

  function LockEvent(e: Event): LM.Event
    requires IsLockStep(e)
  {
    match e
    case Ask(t, q) => LM.Acquire(t, C.ModeFromSql(q.sql))
    case Retry(t) => LM.Recheck(t)
    case Stir(t) => LM.Spurious(t)
    case Leave(t, woken) => LM.Release(t, woken)
  }

  predicate Enabled(catalog: Catalog, s: State, e: Event) {
    && e.t < |s.workers|
    && (IsLockStep(e) ==> LM.Enabled(s.locks, LockEvent(e)))
    && match e
       case TakeJob(t) => s.workers[t].Resting? && LM.AcquireSection(s.locks.lock, JOB_MODE).1
       case EndJob(t) => s.workers[t].Serving?
       case Ask(t, q) => s.workers[t].Serving? && Safe(catalog, q)
       case Retry(t) => s.workers[t].Requesting?
       case Stir(t) => s.workers[t].Requesting?
       case Step(t) => s.workers[t].Working? && !s.workers[t].work.Answered?
       case Leave(t, _) => s.workers[t].Working? && s.workers[t].work.Answered?
  }

  /** After asking for the lock, a worker has it or goes on waiting. */
  function Entered(s: State, t: nat, q: Query, locks: LM.State): State
    requires t < |s.workers|
  {
    if t < |locks.threads| && locks.threads[t].Holding?
    then s.(locks := locks, workers := s.workers[t := Working(q, |s.log|, Begin(q))], log := s.log + [q])
    else s.(locks := locks, workers := s.workers[t := Requesting(q)])
  }

  function After(catalog: Catalog, s: State, e: Event): State
    requires Enabled(catalog, s, e)
  {
    match e
    case TakeJob(t) =>
      s.(locks := s.locks.(lock := LM.AcquireSection(s.locks.lock, JOB_MODE).0), workers := s.workers[t := Serving])
    case EndJob(t) =>
      s.(locks := s.locks.(lock := LM.ReleaseSection(s.locks.lock, JOB_MODE).0), workers := s.workers[t := Resting])
    case Ask(t, q) => Entered(s, t, q, LM.After(s.locks, LockEvent(e)))
    case Retry(t) => Entered(s, t, s.workers[t].q, LM.After(s.locks, LockEvent(e)))
    case Stir(_) => s.(locks := LM.After(s.locks, LockEvent(e)))
    case Step(t) =>
      var (db, work) := Micro(catalog, s.db, s.workers[t].work);
      s.(db := db, workers := s.workers[t := s.workers[t].(work := work)])
    case Leave(t, _) =>
      var a := s.workers[t];
      s.(locks := LM.After(s.locks, LockEvent(e)), workers := s.workers[t := Serving],
          replies := s.replies[a.slot := a.work.reply])
  }

  // ----- the invariant --------------------------------------------------------------------------------------

  /** A worker's place in the program and its place in the lock. */
  predicate InStep(p: LM.Phase, a: Activity) {
    match a
    case Resting => p.Outside?
    case Serving => p.Outside?
    case Requesting(q) => p.Waiting? && p.mode == C.ModeFromSql(q.sql)
    case Working(q, _, _) => p == LM.Holding(C.ModeFromSql(q.sql))
  }

  predicate LocksOk(s: State) {
    && LM.Inv(s.locks) && s.locks.lock.policy.SerialAll? && |s.locks.threads| == |s.workers|
    && forall t :: 0 <= t < |s.workers| ==> InStep(s.locks.threads[t], s.workers[t])
  }

  /** Nobody waits with a query on which the engine would overrun its array. */
  predicate AllSafe(catalog: Catalog, s: State) {
    forall t :: 0 <= t < |s.workers| && s.workers[t].Requesting? ==> Safe(catalog, s.workers[t].q)
  }

  predicate Quiet(s: State) { forall t :: 0 <= t < |s.workers| ==> !s.workers[t].Working? }

  /** Every query before this place in the log has been given its serial answer, and no other. */
  predicate RepliedBefore(catalog: Catalog, db0: Db, s: State, n: nat) {
    && n <= |s.log| && (forall slot <- s.replies :: slot < n)
    && forall slot :: 0 <= slot < n ==> slot in s.replies && s.replies[slot] == SerialReply(catalog, db0, s.log, slot)
  }

  /** A worker at work is the last in the log, and finishing it alone gives what the serial run gives. */
  predicate WorkOk(catalog: Catalog, db0: Db, s: State, a: Activity) {
    a.Working? ==>
      && a.slot + 1 == |s.log| && s.log[a.slot] == a.q && RepliedBefore(catalog, db0, s, a.slot)
      && Finish(catalog, s.db, a.work) == (SerialDb(catalog, db0, s.log), SerialReply(catalog, db0, s.log, a.slot))
  }

  predicate Inv(catalog: Catalog, db0: Db, s: State) {
    && LocksOk(s) && AllSafe(catalog, s)
    && (forall t :: 0 <= t < |s.workers| ==> WorkOk(catalog, db0, s, s.workers[t]))
    && (Quiet(s) ==> s.db == SerialDb(catalog, db0, s.log) && RepliedBefore(catalog, db0, s, |s.log|))
  }

  /** Under SERIAL_ALL whoever works, works alone. */
  lemma WorksAlone(s: State, t: nat, u: nat)
    requires LocksOk(s) && t < |s.workers| && u < |s.workers| && t != u && s.workers[t].Working?
    ensures !s.workers[u].Working?
  {
    hide LM.Inv, C.ModeFromSql;
    assert InStep(s.locks.threads[t], s.workers[t]) && InStep(s.locks.threads[u], s.workers[u]);
    C.NeverUnlocked(s.workers[t].q.sql);
    LM.HoldersExclude(s.locks, t, u);
    if s.workers[u].Working? {
      C.NeverUnlocked(s.workers[u].q.sql);
    }
  }

  lemma LocksStep(catalog: Catalog, s: State, e: Event)
    requires LocksOk(s) && Enabled(catalog, s, e)
    ensures LocksOk(After(catalog, s, e))
  {
    hide LM.Inv, LM.After, C.ModeFromSql, Micro;
    var s' := After(catalog, s, e);
    if IsLockStep(e) {
      LM.StepInv(s.locks, LockEvent(e));
      LockAfter(s.locks, LockEvent(e));
    } else {
      JobLockDoesNothing(s.locks.lock);
    }
    forall u | 0 <= u < |s.workers| ensures |s'.locks.threads| == |s'.workers| &&
        InStep(s'.locks.threads[u], s'.workers[u]) {
      assert InStep(s.locks.threads[u], s.workers[u]) && InStep(s.locks.threads[e.t], s.workers[e.t]);
      if IsLockStep(e) && u != e.t { LM.OthersStay(s.locks, LockEvent(e), u); }
    }
  }

  /** The lock a worker takes around a whole job is for mode NONE and does nothing. */
  lemma JobLockDoesNothing(l: LM.Lock)
    ensures LM.AcquireSection(l, JOB_MODE) == (l, true) && LM.ReleaseSection(l, JOB_MODE) == (l, LM.WakeNobody)
  {
  }

  lemma SafeStep(catalog: Catalog, s: State, e: Event)
    requires AllSafe(catalog, s) && Enabled(catalog, s, e)
    ensures AllSafe(catalog, After(catalog, s, e))
  {
    hide LM.After, LM.Enabled, C.ModeFromSql, Micro, Safe;
    var s' := After(catalog, s, e);
    assert |s'.workers| == |s.workers| && forall u :: 0 <= u < |s.workers| && u != e.t ==>
        s'.workers[u] == s.workers[u];
  }

  /** What a step of the lock does to the thread that takes it. */
  lemma LockAfter(l: LM.State, e: LM.Event)
    requires LM.Enabled(l, e)
    ensures var l' := LM.After(l, e);
            && l'.lock.policy == l.lock.policy && |l'.threads| == |l.threads|
            && var p := l'.threads[e.t];
               match e
               case Acquire(_, mode) => p == LM.Holding(mode) || p == LM.Waiting(mode, true)
               case Recheck(t) => p == LM.Holding(l.threads[t].mode) || p == LM.Waiting(l.threads[t].mode, true)
               case Spurious(t) => p == LM.Waiting(l.threads[t].mode, false)
               case Release(t, _) => p == LM.Outside
  {
  }

  /** A worker that gets the lock is the next in the log. */
  lemma EnterShape(catalog: Catalog, s: State, e: Event)
    requires Enabled(catalog, s, e) && (e.Ask? || e.Retry?) && After(catalog, s, e).log != s.log
    ensures var s' := After(catalog, s, e);
            && e.t < |s.workers| == |s'.workers| && !s.workers[e.t].Working? && s'.workers[e.t].Working?
            && var q := s'.workers[e.t].q;
               (AllSafe(catalog, s) ==> Safe(catalog, q))
               && s' == s.(locks := s'.locks, log := s.log + [q],
                    workers := s.workers[e.t := Working(q, |s.log|, Begin(q))])
  {
    hide LM.After, LM.Enabled, C.ModeFromSql;
  }

  /** A worker that goes on waiting changes nothing but its own state and the lock. */
  lemma WaitShape(catalog: Catalog, s: State, e: Event)
    requires Enabled(catalog, s, e) && !e.Step? && !e.Leave? && After(catalog, s, e).log == s.log
    ensures var s' := After(catalog, s, e);
            && e.t < |s.workers| == |s'.workers| && !s.workers[e.t].Working? && !s'.workers[e.t].Working?
            && s' == s.(locks := s'.locks, workers := s.workers[e.t := s'.workers[e.t]])
  {
    hide LM.After, LM.Enabled, C.ModeFromSql;
    assert forall q: Query :: |s.log + [q]| == |s.log| + 1;
  }

  lemma EnterWork(catalog: Catalog, db0: Db, s: State, e: Event)
    requires Inv(catalog, db0, s) && Enabled(catalog, s, e) && (e.Ask? || e.Retry?) && After(catalog, s, e).log != s.log
    ensures Inv(catalog, db0, After(catalog, s, e))
  {
    hide LocksOk, AllSafe, Safe, After, Enabled, WorkOk, RepliedBefore, SerialDb;
    var s' := After(catalog, s, e);
    LocksStep(catalog, s, e);
    SafeStep(catalog, s, e);
    EnterShape(catalog, s, e);
    var q := s'.workers[e.t].q;
    forall u | 0 <= u < |s.workers| && u != e.t ensures !s.workers[u].Working? { WorksAlone(s', e.t, u); }
    assert Quiet(s);
    NextWork(catalog, db0, s, s', q);
    forall u | 0 <= u < |s.workers| ensures WorkOk(catalog, db0, s', s'.workers[u]) {
      if u != e.t { NoWork(catalog, db0, s', s'.workers[u]); }
    }
    assert s'.workers[e.t].Working?;
  }

  lemma NoWork(catalog: Catalog, db0: Db, s: State, a: Activity)
    requires !a.Working?
    ensures WorkOk(catalog, db0, s, a)
  {
  }

  /** A query that begins on the serial state is on its way to the serial result. */
  lemma NextWork(catalog: Catalog, db0: Db, s: State, s': State, q: Query)
    requires Safe(catalog, q) && s.db == SerialDb(catalog, db0, s.log) && RepliedBefore(catalog, db0, s, |s.log|)
    requires s'.log == s.log + [q] && s'.db == s.db && s'.replies == s.replies
    ensures WorkOk(catalog, db0, s', Working(q, |s.log|, Begin(q)))
  {
    hide Finish, Execute, SerialDb, SerialReply, Safe;
    SerialSnoc(catalog, db0, s.log, q);
    FinishIsExecute(catalog, s.db, q);
    assert RepliedBefore(catalog, db0, s', |s.log|);
  }

  lemma WaitWork(catalog: Catalog, db0: Db, s: State, e: Event)
    requires Inv(catalog, db0, s) && Enabled(catalog, s, e) && !e.Step? && !e.Leave? &&
             After(catalog, s, e).log == s.log
    ensures Inv(catalog, db0, After(catalog, s, e))
  {
    hide LocksOk, AllSafe, Safe, After, Enabled, Finish, Execute, SerialDb, SerialReply;
    var s' := After(catalog, s, e);
    LocksStep(catalog, s, e);
    SafeStep(catalog, s, e);
    WaitShape(catalog, s, e);
    forall u | 0 <= u < |s.workers| ensures WorkOk(catalog, db0, s', s'.workers[u]) {
      assert WorkOk(catalog, db0, s, s.workers[u]);
    }
    if Quiet(s') {
      forall u | 0 <= u < |s.workers| ensures !s.workers[u].Working? { assert !s'.workers[u].Working?; }
    }
  }

  lemma StepWork(catalog: Catalog, db0: Db, s: State, e: Event)
    requires Inv(catalog, db0, s) && Enabled(catalog, s, e) && e.Step?
    ensures Inv(catalog, db0, After(catalog, s, e))
  {
    hide LM.Inv, Finish, Execute, SerialDb, SerialReply, InStep, Micro, AllSafe, Safe;
    var s' := After(catalog, s, e);
    LocksStep(catalog, s, e);
    SafeStep(catalog, s, e);
    assert WorkOk(catalog, db0, s, s.workers[e.t]);
    FinishStep(catalog, s.db, s.workers[e.t].work);
    forall u | 0 <= u < |s.workers| && u != e.t ensures !s'.workers[u].Working? { WorksAlone(s, e.t, u); }
    assert s'.workers[e.t].Working?;
  }

  lemma LeaveWork(catalog: Catalog, db0: Db, s: State, e: Event)
    requires Inv(catalog, db0, s) && Enabled(catalog, s, e) && e.Leave?
    ensures Inv(catalog, db0, After(catalog, s, e))
  {
    hide LM.Inv, LM.After, LM.Enabled, Finish, Execute, SerialDb, SerialReply, InStep, AllSafe, Safe;
    var s', a := After(catalog, s, e), s.workers[e.t];
    LocksStep(catalog, s, e);
    SafeStep(catalog, s, e);
    assert WorkOk(catalog, db0, s, a);
    FinishAnswered(catalog, s.db, a.work.reply);
    forall u | 0 <= u < |s.workers| && u != e.t ensures !s'.workers[u].Working? { WorksAlone(s, e.t, u); }
    assert RepliedBefore(catalog, db0, s', |s.log|);
  }

  /** Every step of every worker keeps the invariant. */
  lemma StepInv(catalog: Catalog, db0: Db, s: State, e: Event)
    requires Inv(catalog, db0, s) && Enabled(catalog, s, e)
    ensures Inv(catalog, db0, After(catalog, s, e))
  {
    hide Inv, Enabled;
    if e.Step? {
      StepWork(catalog, db0, s, e);
    } else if e.Leave? {
      LeaveWork(catalog, db0, s, e);
    } else if After(catalog, s, e).log == s.log {
      WaitWork(catalog, db0, s, e);
    } else {
      EnterWork(catalog, db0, s, e);
    }
  }

  // ----- whole runs -----------------------------------------------------------------------------------------

  function Start(db: Db, workers: nat): State {
    State(LM.Start(LM.SerialAll, workers), seq(workers, _ => Resting), db, [], map[])
  }

  lemma StartInv(catalog: Catalog, db: Db, workers: nat)
    ensures Inv(catalog, db, Start(db, workers))
  {
    LM.StartInv(LM.SerialAll, workers);
  }

  predicate Possible(catalog: Catalog, s: State, es: seq<Event>)
    decreases |es|
  {
    es == [] || (Enabled(catalog, s, es[0]) && Possible(catalog, After(catalog, s, es[0]), es[1..]))
  }

  function Run(catalog: Catalog, s: State, es: seq<Event>): State
    requires Possible(catalog, s, es)
    decreases |es|
  {
    if es == [] then s else Run(catalog, After(catalog, s, es[0]), es[1..])
  }

  lemma {:induction false} RunInv(catalog: Catalog, db0: Db, s: State, es: seq<Event>)
    requires Inv(catalog, db0, s) && Possible(catalog, s, es)
    ensures Inv(catalog, db0, Run(catalog, s, es))
    decreases |es|
  {
    hide Inv, Enabled, After;
    if es != [] {
      StepInv(catalog, db0, s, es[0]);
      RunInv(catalog, db0, After(catalog, s, es[0]), es[1..]);
    }
  }

  /** Serialisability: in every interleaving of any number of workers, asked any queries that stay in bounds,
      every answer is the one the query gets when the queries run one at a time in the order in which they got
      the lock; and whenever no query is under way every query has been answered and files and indexes are what
      that serial run leaves. */
  lemma Serialisable(catalog: Catalog, db: Db, workers: nat, es: seq<Event>)
    requires Possible(catalog, Start(db, workers), es)
    ensures var s := Run(catalog, Start(db, workers), es);
            && (forall slot <- s.replies :: slot < |s.log| && s.replies[slot] == SerialReply(catalog, db, s.log, slot))
            && (Quiet(s) ==> s.db == SerialDb(catalog, db, s.log) && forall slot :: 0 <= slot < |s.log| ==>
                 slot in s.replies)
  {
    StartInv(catalog, db, workers);
    RunInv(catalog, db, Start(db, workers), es);
    hide Run, Possible, LocksOk, SerialDb, SerialReply, Finish;
    var s := Run(catalog, Start(db, workers), es);
    if !Quiet(s) {
      var t :| 0 <= t < |s.workers| && s.workers[t].Working?;
      assert WorkOk(catalog, db, s, s.workers[t]);
    }
  }

  /** No worker ever asks for the lock while it holds it or waits for it: wherever its program lets it ask, for
      its job or for a query, the lock has nothing to do with it, and so the lock never refuses the call. */
  lemma NeverNested(catalog: Catalog, db: Db, workers: nat, es: seq<Event>, t: nat, q: Query)
    requires Possible(catalog, Start(db, workers), es)
    requires var s := Run(catalog, Start(db, workers), es);
             t < |s.workers| && (s.workers[t].Resting? || s.workers[t].Serving?)
    ensures var s := Run(catalog, Start(db, workers), es);
            && !LM.Holds(s.locks, t) && !LM.Waits(s.locks, t)
            && (s.workers[t].Resting? ==> Enabled(catalog, s, TakeJob(t)))
            && (s.workers[t].Serving? && Safe(catalog, q) ==> Enabled(catalog, s, Ask(t, q)))
  {
    hide Inv, Run, Possible, Safe, Enabled;
    StartInv(catalog, db, workers);
    RunInv(catalog, db, Start(db, workers), es);
    OutsideInv(catalog, db, Run(catalog, Start(db, workers), es), t, q);
  }

  lemma OutsideInv(catalog: Catalog, db0: Db, s: State, t: nat, q: Query)
    requires Inv(catalog, db0, s) && t < |s.workers| && (s.workers[t].Resting? || s.workers[t].Serving?)
    ensures !LM.Holds(s.locks, t) && !LM.Waits(s.locks, t)
    ensures s.workers[t].Resting? ==> Enabled(catalog, s, TakeJob(t))
    ensures s.workers[t].Serving? && Safe(catalog, q) ==> Enabled(catalog, s, Ask(t, q))
  {
    hide WorkOk, RepliedBefore, SerialDb, AllSafe, Safe, LM.Inv, C.ModeFromSql;
    assert InStep(s.locks.threads[t], s.workers[t]);
    JobLockDoesNothing(s.locks.lock);
  }

  /** The workers are never all stuck: while some query is waiting or under way, some worker can take a
      step that gets the lock, works or leaves. */
  lemma NeverStuck(catalog: Catalog, db0: Db, s: State, t: nat) returns (e: Event)
    requires Inv(catalog, db0, s) && t < |s.workers| && (s.workers[t].Requesting? || s.workers[t].Working?)
    ensures (e.Retry? || e.Step? || e.Leave?) && Enabled(catalog, s, e)
    ensures e.Retry? ==> After(catalog, s, e).workers[e.t].Working?
  {
    hide LM.Inv, Finish, SerialDb, SerialReply, C.ModeFromSql, Micro;
    assert InStep(s.locks.threads[t], s.workers[t]);
    if !Quiet(s) {
      var u :| 0 <= u < |s.workers| && s.workers[u].Working?;
      assert InStep(s.locks.threads[u], s.workers[u]);
      e := if s.workers[u].work.Answered? then Leave(u, SomeWaiter(s.locks, u)) else Step(u);
    } else {
      forall i | 0 <= i < |s.locks.threads| ensures !LM.Holds(s.locks, i) {
        assert InStep(s.locks.threads[i], s.workers[i]);
      }
      C.NeverUnlocked(s.workers[t].q.sql);
      var u := LM.CanProceed(s.locks, t);
      assert InStep(s.locks.threads[u], s.workers[u]);
      e := Retry(u);
    }
  }

  /** Whom a release wakes. */
  ghost function SomeWaiter(l: LM.State, t: nat): (woken: Option<nat>)
    requires t < |l.threads| && l.threads[t].Holding?
    ensures LM.Enabled(l, LM.Release(t, woken))
  {
    if LM.ReleaseSection(l.lock, l.threads[t].mode).1.WakeOneWriter?
       && exists w :: 0 <= w < |l.threads| && LM.HasRole(l, w, LM.SleepingWriter)
    then var w :| 0 <= w < |l.threads| && LM.HasRole(l, w, LM.SleepingWriter); Some(w)
    else None
  }

  // ----- what concurrent INSERTs do to one table ---------------------------------------------------------------

  /** What a query does to the table stored under `name`, if it concerns it at all. */
  function OpOf(catalog: Catalog, name: string, q: Query): seq<DatabaseRuns.Op> {
    match Sql.ParseSql(q.sql)
    case None => []
    case Some(stmt) =>
      if stmt.table !in catalog || catalog[stmt.table].storageName != name then [] else
      match stmt
      case Insert(_, columns, values) => [DatabaseRuns.DoInsert(columns, values, q.fails)]
      case Select(_, selection, condition) => [DatabaseRuns.DoSelect(selection, condition)]
  }

  function OpsOn(catalog: Catalog, name: string, log: seq<Query>): seq<DatabaseRuns.Op>
    decreases |log|
  {
    if log == [] then [] else OpsOn(catalog, name, log[..|log| - 1]) + OpOf(catalog, name, log[|log| - 1])
  }

  /** All tables stored under one name are the same table. */
  predicate StoredAs(catalog: Catalog, name: string, schema: Schema) {
    forall table <- catalog :: catalog[table].storageName == name ==> catalog[table] == schema
  }

  lemma ExecuteOnTable(catalog: Catalog, db: Db, q: Query, name: string, schema: Schema)
    requires StoredAs(catalog, name, schema) && name in db
    ensures var db', ops := Execute(catalog, db, q).0, OpOf(catalog, name, q);
            && name in db'
            && (ops == [] ==> db'[name] == db[name])
            && (ops != [] ==> |ops| == 1 && db'[name] == DatabaseRuns.Apply(db[name], schema, ops[0]))
  {
    hide Sql.ParseSql, ExecInsert, ExecSelect;
  }

  lemma {:induction false} RunSnoc(t: Table, schema: Schema, ops: seq<DatabaseRuns.Op>, op: DatabaseRuns.Op)
    ensures DatabaseRuns.Run(t, schema, ops + [op]) == DatabaseRuns.Apply(DatabaseRuns.Run(t, schema, ops), schema, op)
    decreases |ops|
  {
    hide DatabaseRuns.Apply;
    if ops == [] {
      assert ops + [op] == [op] && [op][1..] == [];
    } else {
      assert (ops + [op])[1..] == ops[1..] + [op];
      RunSnoc(DatabaseRuns.Apply(t, schema, ops[0]), schema, ops[1..], op);
    }
  }

  /** A serial run does to each table what the statements on that table do. */
  lemma {:induction false} SerialTable(catalog: Catalog, db: Db, log: seq<Query>, name: string, schema: Schema)
    requires StoredAs(catalog, name, schema) && name in db
    ensures name in SerialDb(catalog, db, log)
    ensures SerialDb(catalog, db, log)[name] == DatabaseRuns.Run(db[name], schema, OpsOn(catalog, name, log))
    decreases |log|
  {
    hide Execute, OpOf, DatabaseRuns.Apply, DatabaseRuns.Run;
    if log == [] {
      RunNothing(db[name], schema);
    } else {
      var n := |log| - 1;
      SerialTable(catalog, db, log[..n], name, schema);
      ExecuteOnTable(catalog, SerialDb(catalog, db, log[..n]), log[n], name, schema);
      var before, ops := OpsOn(catalog, name, log[..n]), OpOf(catalog, name, log[n]);
      if ops == [] {
        assert before + ops == before;
      } else {
        assert ops == [ops[0]];
        RunSnoc(db[name], schema, before, ops[0]);
      }
    }
  }

  lemma RunNothing(t: Table, schema: Schema)
    ensures DatabaseRuns.Run(t, schema, []) == t
  {
  }

  /** Concurrent INSERTs take distinct, gap-free ids: whenever no query is under way, the rows of a table
      are the old rows followed by one row for every INSERT that got as far as writing, in the order of
      the lock; row i has id i; and the index says so. */
  lemma ConcurrentInserts(catalog: Catalog, db: Db, workers: nat, es: seq<Event>, name: string, schema: Schema)
    requires Possible(catalog, Start(db, workers), es) && Quiet(Run(catalog, Start(db, workers), es))
    requires StoredAs(catalog, name, schema) && ValidSchema(schema)
    requires name in db && Agrees(db[name]) && Parses(db[name])
    requires forall op <- OpsOn(catalog, name, Run(catalog, Start(db, workers), es).log) :: DatabaseRuns.Short(schema,
             op)
    ensures var s := Run(catalog, Start(db, workers), es);
            && name in s.db && Agrees(s.db[name])
            && DatabaseRuns.Texts(DataRows(s.db[name].file)) ==
               DatabaseRuns.Texts(DataRows(db[name].file)) + DatabaseRuns.Written(db[name], schema,
                   OpsOn(catalog, name, s.log))
            && EnsureLoaded(s.db[name]) == (s.db[name].(index := IndexOfRows(DataRows(s.db[name].file))), None)
  {
    hide Run, Possible, Agrees, Parses, EnsureLoaded, IndexOfRows, DatabaseRuns.Short, DatabaseRuns.Texts,
        DatabaseRuns.Run;
    var s := Run(catalog, Start(db, workers), es);
    Serialisable(catalog, db, workers, es);
    SerialTable(catalog, db, s.log, name, schema);
    DatabaseRuns.RunAgrees(db[name], schema, OpsOn(catalog, name, s.log));
    EnsureLoadedAgrees(s.db[name]);
  }
}
