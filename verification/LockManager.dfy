/** The reader/writer lock (`SERVER-CONCURRENCY/src/lock_manager.c`).  Each stretch of code between
    locking and unlocking the mutex is one atomic step; a thread in a condition wait is asleep, or awake
    and about to check again.  Wake-ups may be spurious. */
module LockManager {
  import opened Basics
  import opened LockClassifier

  datatype Policy = ReadersParallel | SerialAll

  /** `effective_lock_mode`. */
  function Effective(policy: Policy, mode: Mode): Mode {
    if mode.NoLock? then NoLock else if policy.SerialAll? then Write else mode
  }

  // ----- the mutex-protected sections ------------------------------------------------------------

  datatype Lock = Lock(policy: Policy, activeReaders: nat, waitingWriters: nat, writerActive: bool)

  datatype Wake = WakeNobody | WakeOneWriter | WakeAllReaders

  predicate ReaderMayEnter(l: Lock) { !l.writerActive && l.waitingWriters == 0 }

  predicate WriterMayEnter(l: Lock) { !l.writerActive && l.activeReaders == 0 }

  /** A check of the wait condition, by a thread already counted as waiting if it is a writer; the test
      for `waitingWriters > 0` only keeps the function total. */
  function CheckSection(l: Lock, mode: Mode): (Lock, bool) {
    match Effective(l.policy, mode)
    case NoLock => (l, true)
    case Read => if ReaderMayEnter(l) then (l.(activeReaders := l.activeReaders + 1), true) else (l, false)
    case Write =>
      if WriterMayEnter(l) && l.waitingWriters > 0
      then (l.(waitingWriters := l.waitingWriters - 1, writerActive := true), true) else (l, false)
  }

  /** The start of `acquire`: a writer announces itself, then the condition is checked. */
  function AcquireSection(l: Lock, mode: Mode): (Lock, bool) {
    CheckSection(if Effective(l.policy, mode).Write? then l.(waitingWriters := l.waitingWriters + 1) else l, mode)
  }

  function WakeAfterRelease(l: Lock): Wake {
    if l.waitingWriters > 0 then WakeOneWriter else WakeAllReaders
  }

  function ReleaseSection(l: Lock, mode: Mode): (Lock, Wake) {
    match Effective(l.policy, mode)
    case NoLock => (l, WakeNobody)
    case Read =>
      var l' := l.(activeReaders := if l.activeReaders > 0 then l.activeReaders - 1 else 0);
      (l', if l'.activeReaders == 0 then WakeAfterRelease(l') else WakeNobody)
    case Write =>
      var l' := l.(writerActive := false);
      (l', WakeAfterRelease(l'))
  }

  /** The counters of the lock and the sections that change them. */
  class Manager {
    const policy: Policy
    var activeReaders: nat
    var waitingWriters: nat
    var writerActive: bool

    ghost function View(): Lock
      reads this
    {
      Lock(policy, activeReaders, waitingWriters, writerActive)
    }

    constructor (policy: Policy)
      ensures View() == Lock(policy, 0, 0, false)
    {
      this.policy := policy;
      activeReaders, waitingWriters, writerActive := 0, 0, false;
    }

    /** Checks the condition once; `entered` tells whether the caller leaves its wait loop. */
    method Check(mode: Mode) returns (entered: bool)
      requires Effective(policy, mode).Write? ==> waitingWriters > 0
      modifies this
      ensures (View(), entered) == CheckSection(old(View()), mode)
    {
      var effectiveMode := Effective(policy, mode);
      if effectiveMode.NoLock? {
        return true;
      }
      if effectiveMode.Read? {
        if writerActive || waitingWriters > 0 {
          return false;
        }
        activeReaders := activeReaders + 1;
        return true;
      }
      if writerActive || activeReaders > 0 {
        return false;
      }
      waitingWriters := waitingWriters - 1;
      writerActive := true;
      return true;
    }

    method Acquire(mode: Mode) returns (entered: bool)
      modifies this
      ensures (View(), entered) == AcquireSection(old(View()), mode)
    {
      if Effective(policy, mode).Write? {
        waitingWriters := waitingWriters + 1;
      }
      entered := Check(mode);
    }

    method Release(mode: Mode) returns (wake: Wake)
      modifies this
      ensures (View(), wake) == ReleaseSection(old(View()), mode)
    {
      var effectiveMode := Effective(policy, mode);
      if effectiveMode.NoLock? {
        return WakeNobody;
      }
      if effectiveMode.Read? {
        if activeReaders > 0 {
          activeReaders := activeReaders - 1;
        }
        if activeReaders == 0 {
          wake := if waitingWriters > 0 then WakeOneWriter else WakeAllReaders;
        } else {
          wake := WakeNobody;
        }
        return;
      }
      writerActive := false;
      wake := if waitingWriters > 0 then WakeOneWriter else WakeAllReaders;
    }
  }

  // ----- the step system ------------------------------------------------------------------------------

  /** Where a thread is; `mode` is what it asked for. */
  datatype Phase =
    | Outside
    | Waiting(mode: Mode, asleep: bool)
    | Holding(mode: Mode)

  datatype State = State(lock: Lock, threads: seq<Phase>)

  /** What a phase means to the lock. */
  datatype Role = NoRole | SleepingReader | AwakeReader | SleepingWriter | AwakeWriter | ReadHolder | WriteHolder

  function RoleOf(policy: Policy, p: Phase): Role {
    match p
    case Outside => NoRole
    case Waiting(mode, asleep) =>
      (match Effective(policy, mode)
       case NoLock => NoRole
       case Read => if asleep then SleepingReader else AwakeReader
       case Write => if asleep then SleepingWriter else AwakeWriter)
    case Holding(mode) =>
      match Effective(policy, mode)
      case NoLock => NoRole
      case Read => ReadHolder
      case Write => WriteHolder
  }

  datatype Event =
    | Acquire(t: nat, mode: Mode)
    | Recheck(t: nat)
    | Spurious(t: nat)
    | Release(t: nat, woken: Option<nat>)

  predicate HasRole(s: State, t: nat, role: Role) { t < |s.threads| && RoleOf(s.lock.policy, s.threads[t]) == role }

  /** Which thread a signal may wake: some sleeping writer, or nobody if none sleeps. */
  predicate MayWake(s: State, wake: Wake, woken: Option<nat>) {
    match woken
    case Some(w) => wake.WakeOneWriter? && HasRole(s, w, SleepingWriter)
    case None => wake.WakeOneWriter? ==> forall w :: 0 <= w < |s.threads| ==> !HasRole(s, w, SleepingWriter)
  }

  predicate Enabled(s: State, e: Event) {
    e.t < |s.threads| &&
    match e
    case Acquire(t, _) => s.threads[t].Outside?
    case Recheck(t) => s.threads[t].Waiting? && !s.threads[t].asleep
    case Spurious(t) => s.threads[t].Waiting? && s.threads[t].asleep
    case Release(t, woken) =>
      s.threads[t].Holding? && MayWake(s, ReleaseSection(s.lock, s.threads[t].mode).1, woken)
  }

  function Awoken(p: Phase): Phase { if p.Waiting? then p.(asleep := false) else p }

  function WakeReaders(policy: Policy, ts: seq<Phase>): seq<Phase> {
    seq(|ts|, i requires 0 <= i < |ts| => if RoleOf(policy, ts[i]).SleepingReader? then Awoken(ts[i]) else ts[i])
  }

  function Settle(ts: seq<Phase>, t: nat, mode: Mode, entered: bool): seq<Phase>
    requires t < |ts|
  {
    ts[t := if entered then Holding(mode) else Waiting(mode, true)]
  }

  function After(s: State, e: Event): State
    requires Enabled(s, e)
  {
    match e
    case Acquire(t, mode) =>
      var (l, entered) := AcquireSection(s.lock, mode);
      State(l, Settle(s.threads, t, mode, entered))
    case Recheck(t) =>
      var mode := s.threads[t].mode;
      var (l, entered) := CheckSection(s.lock, mode);
      State(l, Settle(s.threads, t, mode, entered))
    case Spurious(t) => s.(threads := s.threads[t := Awoken(s.threads[t])])
    case Release(t, woken) =>
      var (l, wake) := ReleaseSection(s.lock, s.threads[t].mode);
      var ts := s.threads[t := Outside];
      State(l, match wake
               case WakeNobody => ts
               case WakeOneWriter => if woken.Some? then ts[woken.value := Awoken(ts[woken.value])] else ts
               case WakeAllReaders => WakeReaders(s.lock.policy, ts))
  }

  // ----- counting threads by role ------------------------------------------------------------------------

  function Count(policy: Policy, ts: seq<Phase>, role: Role): nat {
    if ts == [] then 0 else Count(policy, ts[..|ts| - 1], role) + if RoleOf(policy, ts[|ts| - 1]) == role then 1 else 0
  }

  function One(b: bool): nat { if b then 1 else 0 }

  lemma {:induction false} CountSet(policy: Policy, ts: seq<Phase>, i: nat, p: Phase, role: Role)
    requires i < |ts|
    ensures Count(policy, ts[i := p], role) + One(RoleOf(policy, ts[i]) == role) ==
            Count(policy, ts, role) + One(RoleOf(policy, p) == role)
  {
    hide RoleOf;
    var n := |ts| - 1;
    if i == n {
      assert ts[i := p][..n] == ts[..n];
    } else {
      assert ts[i := p][..n] == ts[..n][i := p];
      CountSet(policy, ts[..n], i, p, role);
    }
  }

  /** Moving one thread changes exactly the counts of its old and its new role. */
  lemma CountMove(policy: Policy, ts: seq<Phase>, i: nat, p: Phase)
    requires i < |ts|
    ensures forall role ::
              Count(policy, ts[i := p], role) + One(RoleOf(policy, ts[i]) == role) ==
              Count(policy, ts, role) + One(RoleOf(policy, p) == role)
  {
    forall role ensures Count(policy, ts[i := p], role) + One(RoleOf(policy, ts[i]) == role) ==
        Count(policy, ts, role) + One(RoleOf(policy, p) == role) {
      CountSet(policy, ts, i, p, role);
    }
  }

  lemma {:induction false} CountSome(policy: Policy, ts: seq<Phase>, role: Role)
    ensures Count(policy, ts, role) > 0 <==> exists i :: 0 <= i < |ts| && RoleOf(policy, ts[i]) == role
  {
    hide RoleOf;
    if ts != [] {
      var n := |ts| - 1;
      CountSome(policy, ts[..n], role);
      assert forall i :: 0 <= i < n ==> ts[..n][i] == ts[i];
    }
  }

  lemma {:induction false} CountAwoken(policy: Policy, ts: seq<Phase>)
    ensures var ts' := WakeReaders(policy, ts);
            && Count(policy, ts', SleepingReader) == 0
            && (forall role :: role in {SleepingWriter, AwakeWriter, ReadHolder, WriteHolder} ==>
                 Count(policy, ts', role) == Count(policy, ts, role))
  {
    if ts != [] {
      var n := |ts| - 1;
      CountAwoken(policy, ts[..n]);
      assert WakeReaders(policy, ts)[..n] == WakeReaders(policy, ts[..n]);
    }
  }

  // ----- the invariant -----------------------------------------------------------------------------------

  function N(s: State, role: Role): nat { Count(s.lock.policy, s.threads, role) }

  /** The counters count the threads; a writer holds the lock alone; nobody sleeps who should not. */
  predicate Inv(s: State) {
    && s.lock.activeReaders == N(s, ReadHolder)
    && s.lock.waitingWriters == N(s, SleepingWriter) + N(s, AwakeWriter)
    && N(s, WriteHolder) == One(s.lock.writerActive)
    && (s.lock.writerActive ==> s.lock.activeReaders == 0)
    && (WriterMayEnter(s.lock) && s.lock.waitingWriters > 0 ==> N(s, AwakeWriter) > 0)
    && (ReaderMayEnter(s.lock) ==> N(s, SleepingReader) == 0)
  }

  lemma NobodyHas(s: State, role: Role)
    requires forall t :: 0 <= t < |s.threads| ==> !HasRole(s, t, role)
    ensures N(s, role) == 0
  {
    CountSome(s.lock.policy, s.threads, role);
    if exists i :: 0 <= i < |s.threads| && RoleOf(s.lock.policy, s.threads[i]) == role {
      var i :| 0 <= i < |s.threads| && RoleOf(s.lock.policy, s.threads[i]) == role;
      assert HasRole(s, i, role);
    }
  }

  lemma SomebodyHas(s: State, role: Role) returns (t: nat)
    requires N(s, role) > 0
    ensures HasRole(s, t, role)
  {
    CountSome(s.lock.policy, s.threads, role);
    t :| 0 <= t < |s.threads| && RoleOf(s.lock.policy, s.threads[t]) == role;
  }

  lemma EntryInv(s: State, e: Event)
    requires Inv(s) && Enabled(s, e) && !e.Release?
    ensures Inv(After(s, e))
  {
    hide Count;
    CountMove(s.lock.policy, s.threads, e.t, After(s, e).threads[e.t]);
  }

  lemma SignalInv(s: State, t: nat, woken: Option<nat>)
    requires Inv(s) && Enabled(s, Release(t, woken)) && ReleaseSection(s.lock, s.threads[t].mode).1.WakeOneWriter?
    ensures Inv(After(s, Release(t, woken)))
  {
    hide Count;
    var policy, ts := s.lock.policy, s.threads[t := Outside];
    CountMove(policy, s.threads, t, Outside);
    if woken.Some? {
      CountMove(policy, ts, woken.value, Awoken(ts[woken.value]));
    } else {
      NobodyHas(s, SleepingWriter);
    }
  }

  lemma BroadcastInv(s: State, t: nat, woken: Option<nat>)
    requires Inv(s) && Enabled(s, Release(t, woken)) && !ReleaseSection(s.lock, s.threads[t].mode).1.WakeOneWriter?
    ensures Inv(After(s, Release(t, woken)))
  {
    hide Count, WakeReaders;
    CountMove(s.lock.policy, s.threads, t, Outside);
    CountAwoken(s.lock.policy, s.threads[t := Outside]);
  }

  /** Every step of every thread keeps the invariant. */
  lemma StepInv(s: State, e: Event)
    requires Inv(s) && Enabled(s, e)
    ensures Inv(After(s, e))
  {
    hide Inv;
    if !e.Release? {
      EntryInv(s, e);
    } else if ReleaseSection(s.lock, s.threads[e.t].mode).1.WakeOneWriter? {
      SignalInv(s, e.t, e.woken);
    } else {
      BroadcastInv(s, e.t, e.woken);
    }
  }

  // ----- whole runs ------------------------------------------------------------------------------------

  function Start(policy: Policy, threads: nat): State {
    State(Lock(policy, 0, 0, false), seq(threads, _ => Outside))
  }

  lemma {:induction false} StartInv(policy: Policy, threads: nat)
    ensures Inv(Start(policy, threads))
  {
    var s := Start(policy, threads);
    forall role: Role | role != NoRole ensures N(s, role) == 0 { NobodyHas(s, role); }
  }

  predicate Possible(s: State, es: seq<Event>)
    decreases |es|
  {
    es == [] || (Enabled(s, es[0]) && Possible(After(s, es[0]), es[1..]))
  }

  function Run(s: State, es: seq<Event>): State
    requires Possible(s, es)
    decreases |es|
  {
    if es == [] then s else Run(After(s, es[0]), es[1..])
  }

  lemma {:induction false} RunInv(s: State, es: seq<Event>)
    requires Inv(s) && Possible(s, es)
    ensures Inv(Run(s, es)) && Run(s, es).lock.policy == s.lock.policy && |Run(s, es).threads| == |s.threads|
    decreases |es|
  {
    hide Inv;
    if es != [] {
      StepInv(s, es[0]);
      RunInv(After(s, es[0]), es[1..]);
    }
  }

  predicate Holds(s: State, t: nat) { HasRole(s, t, ReadHolder) || HasRole(s, t, WriteHolder) }

  predicate Waits(s: State, t: nat) {
    HasRole(s, t, SleepingReader) || HasRole(s, t, AwakeReader) || HasRole(s, t, SleepingWriter) ||
        HasRole(s, t, AwakeWriter)
  }

  lemma {:induction false} CountTwo(policy: Policy, ts: seq<Phase>, role: Role, i: nat, j: nat)
    requires i < j < |ts| && RoleOf(policy, ts[i]) == role == RoleOf(policy, ts[j])
    ensures Count(policy, ts, role) >= 2
  {
    hide RoleOf;
    var n := |ts| - 1;
    if j < n {
      CountTwo(policy, ts[..n], role, i, j);
    } else {
      assert ts[..n][i] == ts[i];
      CountSome(policy, ts[..n], role);
    }
  }

  lemma HoldersExclude(s: State, i: nat, j: nat)
    requires Inv(s) && i != j
    ensures HasRole(s, i, WriteHolder) ==> !Holds(s, j)
    ensures s.lock.policy.SerialAll? && Holds(s, i) ==> !Holds(s, j)
  {
    hide Count;
    var policy := s.lock.policy;
    if HasRole(s, i, WriteHolder) {
      CountSome(policy, s.threads, WriteHolder);
      CountSome(policy, s.threads, ReadHolder);
      if HasRole(s, j, WriteHolder) {
        CountTwo(policy, s.threads, WriteHolder, if i < j then i else j, if i < j then j else i);
      }
    }
  }

  /** Safety in every reachable state: a writer holds the lock alone, and under SERIAL_ALL at most one
      thread holds it at all. */
  lemma Exclusion(policy: Policy, threads: nat, es: seq<Event>, i: nat, j: nat)
    requires Possible(Start(policy, threads), es) && i != j
    ensures var s := Run(Start(policy, threads), es);
            && (HasRole(s, i, WriteHolder) ==> !Holds(s, j))
            && (policy.SerialAll? && Holds(s, i) ==> !Holds(s, j))
  {
    StartInv(policy, threads);
    RunInv(Start(policy, threads), es);
    hide Run, Possible, Inv;
    HoldersExclude(Run(Start(policy, threads), es), i, j);
  }

  /** A step moves one thread; the others keep what they asked for, and at most wake up. */
  lemma OthersStay(s: State, e: Event, u: nat)
    requires Enabled(s, e) && u < |s.threads| && u != e.t
    ensures |After(s, e).threads| == |s.threads|
    ensures After(s, e).threads[u] == s.threads[u] ||
            (s.threads[u].Waiting? && After(s, e).threads[u] == Awoken(s.threads[u]))
  {
  }

  /** Liveness in every reachable state: whenever nobody holds the lock and somebody wants it, some
      waiting thread is awake and its next step takes the lock. */
  lemma SomebodyCanProceed(policy: Policy, threads: nat, es: seq<Event>, waiting: nat) returns (t: nat)
    requires Possible(Start(policy, threads), es)
    requires var s := Run(Start(policy, threads), es);
             Waits(s, waiting) && forall i :: 0 <= i < |s.threads| ==> !Holds(s, i)
    ensures var s := Run(Start(policy, threads), es);
            Enabled(s, Recheck(t)) && Holds(After(s, Recheck(t)), t)
  {
    StartInv(policy, threads);
    RunInv(Start(policy, threads), es);
    hide Inv, Run, Possible;
    t := CanProceed(Run(Start(policy, threads), es), waiting);
  }

  lemma CanProceed(s: State, waiting: nat) returns (t: nat)
    requires Inv(s) && Waits(s, waiting) && forall i :: 0 <= i < |s.threads| ==> !Holds(s, i)
    ensures Enabled(s, Recheck(t)) && Holds(After(s, Recheck(t)), t)
  {
    hide Count;
    forall i | 0 <= i < |s.threads| ensures !HasRole(s, i, ReadHolder) && !HasRole(s, i, WriteHolder) {
      assert !Holds(s, i);
    }
    NobodyHas(s, ReadHolder);
    NobodyHas(s, WriteHolder);
    if s.lock.waitingWriters > 0 {
      t := SomebodyHas(s, AwakeWriter);
    } else {
      CountSome(s.lock.policy, s.threads, SleepingReader);
      CountSome(s.lock.policy, s.threads, SleepingWriter);
      CountSome(s.lock.policy, s.threads, AwakeWriter);
      t := waiting;
    }
  }

  // ----- who enters when ---------------------------------------------------------------------------------

  /** Asking for the lock, and asking again after waiting: mode NONE always enters; a reader under
      READERS_PARALLEL enters exactly when no writer is active or waiting; everybody else, as a writer, exactly
      when nobody holds the lock.  Who does not enter sleeps. */
  lemma EntersIff(s: State, e: Event)
    requires Inv(s) && Enabled(s, e) && (e.Acquire? || e.Recheck?)
    ensures var s', mode := After(s, e), Asked(s, e);
            && |s'.threads| == |s.threads| && s'.threads[e.t] in {Holding(mode), Waiting(mode, true)}
            && (mode == NoLock ==> s'.threads[e.t] == Holding(mode) && s'.lock == s.lock)
            && (Reads(s, e) ==>
                  && (s'.threads[e.t] == Holding(mode) <==> !s.lock.writerActive && s.lock.waitingWriters == 0)
                  && s'.lock == s.lock.(activeReaders := s.lock.activeReaders + One(s'.threads[e.t].Holding?)))
            && (mode != NoLock && !Reads(s, e) ==>
                  && (s'.threads[e.t] == Holding(mode) <==> !s.lock.writerActive && s.lock.activeReaders == 0)
                  && (s'.lock.writerActive <==> s.lock.writerActive || s'.threads[e.t].Holding?))
  {
    hide Count;
    CountSome(s.lock.policy, s.threads, AwakeWriter);
  }

  function Asked(s: State, e: Event): Mode
    requires Enabled(s, e) && (e.Acquire? || e.Recheck?)
  {
    if e.Acquire? then e.mode else s.threads[e.t].mode
  }

  predicate Reads(s: State, e: Event)
    requires Enabled(s, e) && (e.Acquire? || e.Recheck?)
  {
    Asked(s, e) == Read && s.lock.policy == ReadersParallel
  }

  /** Giving the lock back: the last reader, and a writer, leave it free. */
  lemma LeavesFree(s: State, e: Event)
    requires Inv(s) && Enabled(s, e) && e.Release? && Holds(s, e.t)
    ensures var l, l' := s.lock, After(s, e).lock;
            && After(s, e).threads[e.t] == Outside && l'.waitingWriters == l.waitingWriters && !l'.writerActive
            && l'.activeReaders == if l.activeReaders > 0 then l.activeReaders - 1 else 0
  {
    hide Count, WakeReaders;
    CountSome(s.lock.policy, s.threads, ReadHolder);
    CountSome(s.lock.policy, s.threads, WriteHolder);
    OwnRelease(s, e);
  }

  lemma OwnRelease(s: State, e: Event)
    requires Enabled(s, e) && e.Release?
    ensures |After(s, e).threads| == |s.threads| && After(s, e).threads[e.t] == Outside
  {
  }

  /** Readers do share the lock. */
  lemma ReadersShare() returns (es: seq<Event>)
    ensures Possible(Start(ReadersParallel, 2), es)
    ensures var s := Run(Start(ReadersParallel, 2), es); HasRole(s, 0, ReadHolder) && HasRole(s, 1, ReadHolder)
  {
    var s := Start(ReadersParallel, 2);
    var s1 := After(s, Acquire(0, Read));
    assert s1.threads[1].Outside?;
    var s2 := After(s1, Acquire(1, Read));
    es := [Acquire(0, Read), Acquire(1, Read)];
    assert es[1..] == [Acquire(1, Read)] && es[1..][1..] == [];
    assert Possible(s2, []) && Run(s2, []) == s2;
    assert Possible(s1, es[1..]) && Run(s1, es[1..]) == s2;
  }

  // ----- writer preference -------------------------------------------------------------------------------

  predicate ReaderEnters(s: State, e: Event)
    requires Enabled(s, e)
  {
    After(s, e).lock.activeReaders > s.lock.activeReaders
  }

  predicate WriterEnters(s: State, e: Event)
    requires Enabled(s, e)
  {
    !s.lock.writerActive && After(s, e).lock.writerActive
  }

  /** No step of the run lets a writer in. */
  predicate NoWriterEnters(s: State, es: seq<Event>)
    requires Possible(s, es)
    decreases |es|
  {
    es == [] || (!WriterEnters(s, es[0]) && NoWriterEnters(After(s, es[0]), es[1..]))
  }

  predicate NoReaderEnters(s: State, es: seq<Event>)
    requires Possible(s, es)
    decreases |es|
  {
    es == [] || (!ReaderEnters(s, es[0]) && NoReaderEnters(After(s, es[0]), es[1..]))
  }

  /** How many steps of the run give the lock back. */
  function Releases(s: State, es: seq<Event>): nat
    requires Possible(s, es)
    decreases |es|
  {
    if es == [] then 0 else
    One(es[0].Release? && Holds(s, es[0].t)) + Releases(After(s, es[0]), es[1..])
  }

  /** While a writer waits and none enters, no reader enters either; the holders only drain, and the
      lock is given back exactly as often as there are holders that leave. */
  lemma {:induction false} WriterPreference(s: State, es: seq<Event>)
    requires Inv(s) && Possible(s, es) && s.lock.waitingWriters > 0 && NoWriterEnters(s, es)
    ensures NoReaderEnters(s, es) && Run(s, es).lock.waitingWriters > 0
    ensures var l, l' := s.lock, Run(s, es).lock;
            && l'.activeReaders <= l.activeReaders && (l'.writerActive ==> l.writerActive)
            && Releases(s, es) == (l.activeReaders - l'.activeReaders) + (One(l.writerActive) - One(l'.writerActive))
    decreases |es|
  {
    if es != [] {
      StepInv(s, es[0]);
      PreferenceStep(s, es[0]);
      WriterPreference(After(s, es[0]), es[1..]);
    }
  }

  lemma PreferenceStep(s: State, e: Event)
    requires Inv(s) && Enabled(s, e) && s.lock.waitingWriters > 0 && !WriterEnters(s, e)
    ensures var l, l' := s.lock, After(s, e).lock;
            && !ReaderEnters(s, e) && l'.waitingWriters > 0 && l'.activeReaders <= l.activeReaders
            && (l'.writerActive ==> l.writerActive)
            && One(e.Release? && Holds(s, e.t)) ==
                 (l.activeReaders - l'.activeReaders) + (One(l.writerActive) - One(l'.writerActive))
  {
    hide Count, WakeReaders;
    CountSome(s.lock.policy, s.threads, ReadHolder);
    CountSome(s.lock.policy, s.threads, WriteHolder);
  }
}
