/**
 The books of the asynchronous disk: every write submitted is in flight or has landed, and
 every landed write has been reaped by a poll or is still queued. Polls drain the queue.
 */
module Completions {
  import opened Config
  import opened Disk
  import opened BufferPool
  import opened PoolRuns

  /** Writes that land during a spin-wait, and completions its polls return. */
  ghost function WaitLands(d: Disk, frames: seq<Frame>, schedule: seq<seq<nat>>): nat
    requires WaitEnds(d, frames, schedule)
    decreases schedule
  {
    |schedule[0]| + if LandAll(d, frames, schedule[0]).done > 0 then 0
                    else WaitLands(Retrieve(d, frames, schedule[0]), frames, schedule[1..])
  }

  ghost function WaitReaps(d: Disk, frames: seq<Frame>, schedule: seq<seq<nat>>): nat
    requires WaitEnds(d, frames, schedule)
    decreases schedule
  {
    var found := LandAll(d, frames, schedule[0]).done;
    found + if found > 0 then 0 else WaitReaps(Retrieve(d, frames, schedule[0]), frames, schedule[1..])
  }

  /** Polling leaves nothing queued, and neither touches the queue of writes nor the file more
      than the landings did. */
  lemma PollDrains(d: Disk, frames: seq<Frame>, order: seq<nat>)
    requires CanLandAll(d, frames, order)
    ensures Retrieve(d, frames, order).done == 0
    ensures |Retrieve(d, frames, order).inflight| + |order| == |d.inflight|
    ensures Retrieve(d, frames, order).file == LandAll(d, frames, order).file
  {
    LandAllCounts(d, frames, order);
  }

  lemma {:induction false} WaitBalances(d: Disk, frames: seq<Frame>, schedule: seq<seq<nat>>)
    requires WaitEnds(d, frames, schedule)
    ensures var t := Wait(d, frames, schedule);
            && t.done == 0
            && |t.inflight| + WaitLands(d, frames, schedule) == |d.inflight|
            && WaitReaps(d, frames, schedule) == d.done + WaitLands(d, frames, schedule)
    decreases schedule
  {
    LandAllCounts(d, frames, schedule[0]);
    PollDrains(d, frames, schedule[0]);
    if LandAll(d, frames, schedule[0]).done == 0 {
      WaitBalances(Retrieve(d, frames, schedule[0]), frames, schedule[1..]);
    }
  }

  /** The step evicts a dirty victim. */
  ghost predicate WritesBack(s: Pool, step: Step) {
    && Evicts(s) && s.frames[Victim(s)].dirty
    && (step.Creating? || (step.Fetching? && step.pid !in s.table))
  }

  /** Writes a step submits: one for a dirty victim, one for a dirty page that is flushed. */
  ghost function Submits(s: Pool, step: Step): nat
    requires Defined(s, step)
  {
    if WritesBack(s, step) || (step.Flushing? && step.pid in s.table && s.frames[s.table[step.pid]].dirty) then 1 else 0
  }

  ghost function EvictionDisk(s: Pool): Disk
    requires Evicts(s)
  {
    Submit(s.disk, s.frames[Victim(s)].pid, Victim(s))
  }

  ghost function Lands(s: Pool, step: Step): nat
    requires Defined(s, step)
  {
    if WritesBack(s, step) then WaitLands(EvictionDisk(s), s.frames, step.schedule)
    else if step.Landing? then 1
    else if step.Polling? then |step.order|
    else 0
  }

  /** Completions that polls return during a step. */
  ghost function Reaps(s: Pool, step: Step): nat
    requires Defined(s, step)
  {
    if WritesBack(s, step) then WaitReaps(EvictionDisk(s), s.frames, step.schedule)
    else if step.Polling? then LandAll(s.disk, s.frames, step.order).done
    else 0
  }

  lemma StepBalances(s: Pool, step: Step)
    requires Valid(s) && Defined(s, step)
    ensures var t := NextPool(s, step);
            && |t.disk.inflight| + Lands(s, step) == |s.disk.inflight| + Submits(s, step)
            && t.disk.done + Reaps(s, step) == s.disk.done + Lands(s, step)
  {
    if WritesBack(s, step) {
      WaitBalances(EvictionDisk(s), s.frames, step.schedule);
    } else if step.Polling? {
      LandAllCounts(s.disk, s.frames, step.order);
      PollDrains(s.disk, s.frames, step.order);
    }
  }

  ghost function Total(s: Pool, steps: seq<Step>, count: (Pool, Step) --> nat): nat
    requires IsLegalRun(s, steps) && forall t, e :: Defined(t, e) ==> count.requires(t, e)
    decreases steps
  {
    if steps == [] then 0 else count(s, steps[0]) + Total(NextPool(s, steps[0]), steps[1..], count)
  }

  /** Over every run: writes submitted are those in flight and those landed, and writes landed
      are those reaped by polls and those still queued. */
  lemma {:induction false} RunBalances(s: Pool, steps: seq<Step>)
    requires Valid(s) && WritesInUse(s) && IsLegalRun(s, steps)
    ensures var t := LegalRun(s, steps);
            && |t.disk.inflight| + Total(s, steps, Lands) == |s.disk.inflight| + Total(s, steps, Submits)
            && t.disk.done + Total(s, steps, Reaps) == s.disk.done + Total(s, steps, Lands)
    decreases steps
  {
    if steps == [] {
    } else {
      StepPartitioned(s, steps[0]);
      StepBalances(s, steps[0]);
      RunBalances(NextPool(s, steps[0]), steps[1..]);
    }
  }

  /** A poll that finds every write landed makes the next reuse of a frame safe. */
  lemma FullPollIsSafe(s: Pool, order: seq<nat>)
    requires Valid(s) && CanLandAll(s.disk, s.frames, order) && |order| == |s.disk.inflight|
    ensures ReuseSafe(NextPool(s, Polling(order)))
  {
    PollDrains(s.disk, s.frames, order);
  }

  /** And an eviction that starts with nothing outstanding leaves the next one safe too. */
  lemma EvictionLeavesSafe(s: Pool, step: Step)
    requires Valid(s) && Defined(s, step) && WritesBack(s, step) && s.disk.inflight == [] && s.disk.done == 0
    ensures var t := NextPool(s, step); t.disk.inflight == [] && t.disk.done == 0 && ReuseSafe(t)
  {
    LoneWriteLands(EvictionDisk(s), s.frames, step.schedule);
  }
}
