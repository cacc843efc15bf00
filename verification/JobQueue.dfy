/** The bounded job queue (`SERVER-CONCURRENCY/src/job_queue.c`): a ring buffer that represents a
    bounded first-in first-out queue. */
module JobQueue {

  // ----- the mutex-protected sections on a FIFO queue ---------------------------------------------

  /** A bounded queue of jobs, oldest first. */
  datatype Queue<Job> = Queue(jobs: seq<Job>, capacity: nat, closed: bool)

  /** `MustWait`: the section ends in a condition wait. */
  datatype PushStatus = Pushed | MustWait | Full | Closed

  function PushSection<Job>(q: Queue<Job>, job: Job, blocking: bool): (Queue<Job>, PushStatus) {
    if q.closed then (q, Closed)
    else if |q.jobs| == q.capacity then (q, if blocking then MustWait else Full)
    else (q.(jobs := q.jobs + [job]), Pushed)
  }

  datatype PopStatus<Job> = Popped(job: Job) | Wait | Ended

  function PopSection<Job>(q: Queue<Job>): (Queue<Job>, PopStatus<Job>) {
    if q.jobs != [] then (q.(jobs := q.jobs[1..]), Popped(q.jobs[0]))
    else (q, if q.closed then Ended else Wait)
  }

  // ----- the ring buffer ---------------------------------------------------------------------------

  /** The array position of the i-th queued job. */
  function Slot(head: nat, i: nat, capacity: nat): nat { if head + i < capacity then head + i else head + i - capacity }

  lemma SlotIsModulo(head: nat, i: nat, capacity: nat)
    requires head < capacity && i <= capacity
    ensures Slot(head, i, capacity) == (head + i) % capacity
  {
    Wrap(head + i, capacity);
  }

  lemma Wrap(x: nat, n: nat)
    requires 0 < n && x < 2 * n
    ensures x % n == if x < n then x else x - n
  {
    var k := x / n;
    assert x == k * n + x % n;
    if k >= 2 { Twice(k - 2, n); }
  }

  lemma Twice(k: nat, n: nat)
    ensures (k + 2) * n >= 2 * n
  {
    assert (k + 2) * n == k * n + 2 * n;
  }

  class Ring<Job(0)> {
    const items: array<Job>
    var head: nat
    var tail: nat
    var size: nat
    var closed: bool
    ghost var jobs: seq<Job>

    ghost predicate Valid()
      reads this, items
    {
      && 0 < items.Length && head < items.Length && size <= items.Length
      && tail == Slot(head, size, items.Length)
      && |jobs| == size
      && forall i :: 0 <= i < size ==> jobs[i] == items[Slot(head, i, items.Length)]
    }

    ghost function View(): Queue<Job>
      reads this
    {
      Queue(jobs, items.Length, closed)
    }

    constructor (capacity: nat)
      requires capacity > 0
      ensures Valid() && fresh(items) && View() == Queue([], capacity, false)
    {
      items := new Job[capacity];
      head, tail, size, closed, jobs := 0, 0, 0, false, [];
    }

    /** The write position is always head plus size, modulo the capacity. */
    lemma TailPosition()
      requires Valid()
      ensures tail == (head + size) % items.Length
    {
      SlotIsModulo(head, size, items.Length);
    }

    method Close()
      requires Valid()
      modifies this
      ensures Valid() && View() == old(View()).(closed := true)
    {
      closed := true;
    }

    method Push(job: Job, blocking: bool) returns (status: PushStatus)
      requires Valid()
      modifies this, items
      ensures Valid() && (View(), status) == PushSection(old(View()), job, blocking)
      ensures status == Closed <==> old(closed)
      ensures status == Full <==> !old(closed) && !blocking && old(size) == items.Length
      ensures status == MustWait <==> !old(closed) && blocking && old(size) == items.Length
      ensures closed == old(closed) && jobs == if status == Pushed then old(jobs) + [job] else old(jobs)
    {
      if closed {
        return Closed;
      }
      if size == items.Length {
        return if blocking then MustWait else Full;
      }
      items[tail] := job;
      SlotIsModulo(tail, 1, items.Length);
      tail := (tail + 1) % items.Length;
      size := size + 1;
      jobs := jobs + [job];
      return Pushed;
    }

    method PopFront() returns (job: Job)
      requires Valid() && size > 0
      modifies this
      ensures Valid() && old(jobs) == [job] + jobs && closed == old(closed)
    {
      job := items[head];
      SlotIsModulo(head, 1, items.Length);
      head := (head + 1) % items.Length;
      size := size - 1;
      jobs := jobs[1..];
    }

    method Pop() returns (status: PopStatus<Job>)
      requires Valid()
      modifies this
      ensures Valid() && (View(), status) == PopSection(old(View())) && closed == old(closed)
      ensures old(size) > 0 ==> status == Popped(old(jobs)[0]) && old(jobs) == [old(jobs)[0]] + jobs
      ensures old(size) == 0 ==> jobs == [] && status == if old(closed) then Ended else Wait
    {
      if size == 0 {
        return if closed then Ended else Wait;
      }
      var job := PopFront();
      status := Popped(job);
    }

    /** Empties the queue, oldest job first. */
    method CancelPending() returns (cancelled: seq<Job>)
      requires Valid()
      modifies this
      ensures Valid() && cancelled == old(jobs) && View() == old(View()).(jobs := [])
    {
      cancelled := [];
      while size > 0
        invariant Valid() && closed == old(closed) && cancelled + jobs == old(jobs)
        decreases size
      {
        var job := PopFront();
        assert cancelled + ([job] + jobs) == cancelled + [job] + jobs;
        cancelled := cancelled + [job];
      }
    }
  }
}
