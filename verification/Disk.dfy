/**
 The disk manager: a file of pages read synchronously and written asynchronously.

 A submitted write carries a pointer to a frame, not a copy of its bytes, so it stays in
 flight until the device lands it, and what it stores is what the frame holds when it
 lands. A landed write leaves one entry in the completion queue until a caller reaps it.
 Which writes land before which poll is up to the device: it is a parameter here.
 */
module Disk {
  import opened Config

  /** One frame of the buffer pool, as the disk sees it: the bytes a write points to. */
  datatype Frame = Frame(data: PageData, pid: PageId, pin: nat, dirty: bool)

  datatype Write = Write(pid: PageId, frame: nat)

  datatype Disk = Disk(file: map<PageId, PageData>, inflight: seq<Write>, done: nat, nextPageId: PageId)

  /** A read past the end of the file is filled with zeros. */
  function ReadPage(d: Disk, pid: PageId): PageData {
    if pid in d.file then d.file[pid] else ZeroPage()
  }

  function Submit(d: Disk, pid: PageId, frame: nat): Disk {
    d.(inflight := d.inflight + [Write(pid, frame)])
  }

  /** The id counter is a 32-bit atomic. */
  function AllocatePage(d: Disk): Disk {
    d.(nextPageId := (d.nextPageId + 1) % 0x1_0000_0000)
  }

  predicate CanLand(d: Disk, frames: seq<Frame>, i: nat) {
    i < |d.inflight| && d.inflight[i].frame < |frames|
  }

  /** The device finishes the i-th write in flight with the bytes the frame holds now. */
  function Land(d: Disk, frames: seq<Frame>, i: nat): Disk
    requires CanLand(d, frames, i)
  {
    var w := d.inflight[i];
    d.(file := d.file[w.pid := frames[w.frame].data],
       inflight := d.inflight[..i] + d.inflight[i + 1..],
       done := d.done + 1)
  }

  predicate CanLandAll(d: Disk, frames: seq<Frame>, order: seq<nat>)
    decreases order
  {
    order == [] || (CanLand(d, frames, order[0]) && CanLandAll(Land(d, frames, order[0]), frames, order[1..]))
  }

  function LandAll(d: Disk, frames: seq<Frame>, order: seq<nat>): Disk
    requires CanLandAll(d, frames, order)
    decreases order
  {
    if order == [] then d else LandAll(Land(d, frames, order[0]), frames, order[1..])
  }

  /** A poll: the writes in `order` land, then every queued completion is reaped. */
  function Retrieve(d: Disk, frames: seq<Frame>, order: seq<nat>): Disk
    requires CanLandAll(d, frames, order)
  {
    LandAll(d, frames, order).(done := 0)
  }

  /** A device schedule for a spin-wait: the writes that land before each poll, such that
      some poll finds a completion. */
  predicate WaitEnds(d: Disk, frames: seq<Frame>, schedule: seq<seq<nat>>)
    decreases schedule
  {
    && schedule != []
    && CanLandAll(d, frames, schedule[0])
    && (LandAll(d, frames, schedule[0]).done > 0
        || WaitEnds(Retrieve(d, frames, schedule[0]), frames, schedule[1..]))
  }

  /** Polls until one poll reaps something, whatever it reaps. */
  function Wait(d: Disk, frames: seq<Frame>, schedule: seq<seq<nat>>): Disk
    requires WaitEnds(d, frames, schedule)
    decreases schedule
  {
    var next := Retrieve(d, frames, schedule[0]);
    if LandAll(d, frames, schedule[0]).done > 0 then next
    else Wait(next, frames, schedule[1..])
  }

  lemma {:induction false} LandAllCounts(d: Disk, frames: seq<Frame>, order: seq<nat>)
    requires CanLandAll(d, frames, order)
    ensures |LandAll(d, frames, order).inflight| == |d.inflight| - |order|
    ensures LandAll(d, frames, order).done == d.done + |order|
    decreases order
  {
    if order == [] {
    } else {
      LandAllCounts(Land(d, frames, order[0]), frames, order[1..]);
    }
  }

  /** Landing takes writes out of flight and puts none in. */
  lemma {:induction false} LandAllShrinks(d: Disk, frames: seq<Frame>, order: seq<nat>)
    requires CanLandAll(d, frames, order)
    ensures forall w :: w in LandAll(d, frames, order).inflight ==> w in d.inflight
    decreases order
  {
    if order == [] {
    } else {
      LandAllShrinks(Land(d, frames, order[0]), frames, order[1..]);
    }
  }

  lemma {:induction false} WaitShrinks(d: Disk, frames: seq<Frame>, schedule: seq<seq<nat>>)
    requires WaitEnds(d, frames, schedule)
    ensures forall w :: w in Wait(d, frames, schedule).inflight ==> w in d.inflight
    decreases schedule
  {
    LandAllShrinks(d, frames, schedule[0]);
    if LandAll(d, frames, schedule[0]).done == 0 {
      WaitShrinks(Retrieve(d, frames, schedule[0]), frames, schedule[1..]);
    }
  }

  /** With exactly one write outstanding, every wait ends with that write on disk. */
  lemma {:induction false} LoneWriteLands(d: Disk, frames: seq<Frame>, schedule: seq<seq<nat>>)
    requires |d.inflight| == 1 && d.done == 0
    requires WaitEnds(d, frames, schedule)
    ensures d.inflight[0].frame < |frames|
    ensures Wait(d, frames, schedule) ==
            d.(file := d.file[d.inflight[0].pid := frames[d.inflight[0].frame].data], inflight := [])
    decreases schedule
  {
    var order := schedule[0];
    LandAllCounts(d, frames, order);
    if order == [] {
      LoneWriteLands(d, frames, schedule[1..]);
    } else {
      assert order[1..] == [] && order[0] == 0;
      assert LandAll(d, frames, order) == Land(d, frames, 0);
    }
  }
}
