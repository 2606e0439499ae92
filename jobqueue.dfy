/**
 * The per-tile job queue job_q<work_type> (SimpleTiling.cpp:33-82): three
 * parallel fixed-size arrays and a counter, used as a bounded stack.
 */
module JobQueues {
  import opened TilingTypes

  /** One queued job: the wrapper to call, the wrapped job and the wrapper's 64-bit input. */
  datatype Entry<W, J> = Entry(wrapper: W, job: J, input: uint64)

  /** The pending entries after one append_job: the entry is kept only while there is room. */
  function Appended<W, J>(pending: seq<Entry<W, J>>, e: Entry<W, J>): seq<Entry<W, J>> {
    if |pending| < MaxQueuedJobs then pending + [e] else pending
  }

  /** The pending entries after a burst of append_job calls, oldest first. */
  function AppendedAll<W, J>(pending: seq<Entry<W, J>>, burst: seq<Entry<W, J>>): seq<Entry<W, J>>
    decreases |burst|
  {
    if burst == [] then pending else AppendedAll(Appended(pending, burst[0]), burst[1..])
  }

  function Min(a: nat, b: nat): nat {
    if a <= b then a else b
  }

  /**
   * Drop-newest: a burst appended to a queue keeps its earliest entries,
   * exactly as many as there is room for, and discards the rest; the queue
   * never holds more than MaxQueuedJobs entries.
   */
  lemma {:induction false} BurstKeepsEarliest<W, J>(pending: seq<Entry<W, J>>, burst: seq<Entry<W, J>>)
    requires |pending| <= MaxQueuedJobs
    ensures AppendedAll(pending, burst) == pending + burst[..Min(|burst|, MaxQueuedJobs - |pending|)]
    ensures |AppendedAll(pending, burst)| <= MaxQueuedJobs
    decreases |burst|
  {
    if burst != [] {
      var next := Appended(pending, burst[0]);
      BurstKeepsEarliest(next, burst[1..]);
      if |pending| < MaxQueuedJobs {
        assert burst[..Min(|burst|, MaxQueuedJobs - |pending|)]
            == [burst[0]] + burst[1..][..Min(|burst| - 1, MaxQueuedJobs - |next|)];
      }
    }
  }

  class JobQueue<W(0), J(0)> {
    const wrappers: array<W>
    const jobs: array<J>
    const inputs: array<uint64>
    /** Number of pending entries; they occupy slots 0 .. front-1, newest last. */
    var front: int
    ghost const Repr: set<object>

    ghost predicate Valid()
      reads this
    {
      && Repr == {this, wrappers, jobs, inputs}
      && wrappers as object != jobs as object
      && wrappers as object != inputs as object
      && jobs as object != inputs as object
      && wrappers.Length == MaxQueuedJobs
      && jobs.Length == MaxQueuedJobs
      && inputs.Length == MaxQueuedJobs
      && 0 <= front <= MaxQueuedJobs
    }

    /** The pending entries, oldest first. */
    ghost function Contents(): seq<Entry<W, J>>
      requires Valid()
      reads this, wrappers, jobs, inputs
    {
      var n := front;
      seq(n, k requires 0 <= k < n reads wrappers, jobs, inputs => Entry(wrappers[k], jobs[k], inputs[k]))
    }

    /** A zero-filled queue, as setup's memset leaves it. */
    constructor ()
      ensures Valid() && fresh(Repr)
      ensures front == 0 && Contents() == []
    {
      wrappers := new W[MaxQueuedJobs];
      jobs := new J[MaxQueuedJobs];
      inputs := new uint64[MaxQueuedJobs];
      front := 0;
      Repr := {this, wrappers, jobs, inputs};
    }

    /** append_job: store at slot front and advance, or drop the entry when the queue is full. */
    method AppendJob(wrapper: W, job: J, wrapperInputs: uint64)
      requires Valid()
      modifies Repr
      ensures Valid()
      ensures Contents() == Appended(old(Contents()), Entry(wrapper, job, wrapperInputs))
      ensures old(front) < MaxQueuedJobs ==>
        && front == old(front) + 1
        && wrappers[..] == old(wrappers[..])[old(front) := wrapper]
        && jobs[..] == old(jobs[..])[old(front) := job]
        && inputs[..] == old(inputs[..])[old(front) := wrapperInputs]
      ensures old(front) == MaxQueuedJobs ==> front == old(front) && unchanged(wrappers, jobs, inputs)
    {
      if front < MaxQueuedJobs {
        wrappers[front] := wrapper;
        jobs[front] := job;
        inputs[front] := wrapperInputs;
        front := front + 1;
      }
    }

    /**
     * consume_job: take the most recently appended entry (LIFO) for the caller
     * to run and drop it; the entries below it stay as they are.
     */
    method ConsumeJob() returns (e: Entry<W, J>)
      requires Valid() && front > 0
      modifies this
      ensures Valid()
      ensures front == old(front) - 1
      ensures e == old(Contents())[old(front) - 1]
      ensures Contents() == old(Contents())[..old(front) - 1]
    {
      e := Entry(wrappers[front - 1], jobs[front - 1], inputs[front - 1]);
      front := front - 1;
    }
  }

  /** Consuming right after a successful append hands back that entry and restores the queue. */
  lemma ConsumeUndoesAppend<W, J>(pending: seq<Entry<W, J>>, e: Entry<W, J>)
    requires |pending| < MaxQueuedJobs
    ensures var after := Appended(pending, e);
            after[|after| - 1] == e && after[..|after| - 1] == pending
  {
  }
}
