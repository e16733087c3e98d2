/**
 The disk manager and the buffer pool manager as the objects they are: every method changes
 the fields in place and is proved to take the step its specification describes.
 */
module PoolManager {
  import opened Config
  import opened Disk
  import D = Disk
  import opened BufferPool

  class DiskManager {
    var file: map<PageId, PageData>
    var inflight: seq<Write>
    var done: nat
    var nextPageId: PageId

    ghost function Abs(): Disk
      reads this
    {
      Disk(file, inflight, done, nextPageId)
    }

    constructor (file: map<PageId, PageData>)
      ensures Abs() == Disk(file, [], 0, 0)
    {
      this.file, inflight, done, nextPageId := file, [], 0, 0;
    }

    method ReadPage(pid: PageId) returns (data: PageData)
      ensures data == D.ReadPage(Abs(), pid)
    {
      if pid in file { data := file[pid]; } else { data := ZeroPage(); }
    }

    method WritePageAsync(pid: PageId, frame: nat)
      modifies this
      ensures Abs() == Submit(old(Abs()), pid, frame)
    {
      inflight := inflight + [Write(pid, frame)];
    }

    method AllocatePage() returns (pid: PageId)
      modifies this
      ensures pid == old(nextPageId) && Abs() == D.AllocatePage(old(Abs()))
    {
      pid := nextPageId;
      nextPageId := (nextPageId + 1) % 0x1_0000_0000;
    }

    /** The device's part of a poll: the chosen writes land in the given order. */
    method DeviceLands(frames: seq<Frame>, order: seq<nat>)
      requires CanLandAll(Abs(), frames, order)
      modifies this
      ensures Abs() == LandAll(old(Abs()), frames, order)
    {
      var rest := order;
      while rest != []
        invariant CanLandAll(Abs(), frames, rest)
        invariant LandAll(Abs(), frames, rest) == LandAll(old(Abs()), frames, order)
        decreases rest
      {
        var i := rest[0];
        var w := inflight[i];
        file := file[w.pid := frames[w.frame].data];
        inflight := inflight[..i] + inflight[i + 1..];
        done := done + 1;
        rest := rest[1..];
      }
    }

    /** Reaps completions one at a time until the queue is empty and counts them. */
    method RetrieveAsyncCompletions(frames: seq<Frame>, order: seq<nat>) returns (completions: nat)
      requires CanLandAll(Abs(), frames, order)
      modifies this
      ensures Abs() == Retrieve(old(Abs()), frames, order)
      ensures completions == LandAll(old(Abs()), frames, order).done
    {
      DeviceLands(frames, order);
      completions := 0;
      while done > 0
        invariant Abs().(done := 0) == Retrieve(old(Abs()), frames, order)
        invariant completions + done == LandAll(old(Abs()), frames, order).done
      {
        done := done - 1;
        completions := completions + 1;
      }
    }
  }

  class BufferPoolManager {
    const pages: array<Frame>
    const disk: DiskManager
    var table: map<PageId, nat>
    var lru: seq<nat>
    var free: seq<nat>

    ghost function Abs(): Pool
      reads this, pages, disk
    {
      Pool(pages[..], table, lru, free, disk.Abs())
    }

    constructor (poolSize: nat, disk: DiskManager)
      ensures this.disk == disk && fresh(pages)
      ensures Abs() == Fresh(poolSize, disk.Abs()) && Valid(Abs())
      ensures |free| == poolSize && forall i :: 0 <= i < poolSize ==> free[i] == i
    {
      pages := new Frame[poolSize](i => EmptyFrame());
      this.disk := disk;
      table, lru, free := map[], [], [];
      new;
      var i := 0;
      while i < poolSize
        invariant i <= poolSize && free == seq(i, j => j)
        invariant table == map[] && lru == [] && pages[..] == seq(poolSize, j => EmptyFrame())
        invariant disk.Abs() == old(disk.Abs())
      {
        free := free + [i];
        i := i + 1;
      }
      FreshValid(poolSize, disk.Abs());
    }

    /** Spins until a poll reaps at least one completion. */
    method SpinWait(schedule: seq<seq<nat>>)
      requires WaitEnds(disk.Abs(), pages[..], schedule)
      modifies disk
      ensures disk.Abs() == Wait(old(disk.Abs()), pages[..], schedule)
    {
      var rest := schedule;
      var frames := pages[..];
      var completions := disk.RetrieveAsyncCompletions(frames, rest[0]);
      while completions == 0
        invariant completions == 0 ==> rest != [] && WaitEnds(disk.Abs(), frames, rest[1..])
        invariant Wait(old(disk.Abs()), frames, schedule) ==
                  if completions == 0 then Wait(disk.Abs(), frames, rest[1..]) else disk.Abs()
        decreases rest, completions == 0
      {
        rest := rest[1..];
        completions := disk.RetrieveAsyncCompletions(frames, rest[0]);
      }
    }

    method TakeFrame(schedule: seq<seq<nat>>) returns (frame: Option<nat>)
      requires Valid(Abs()) && TakeReady(Abs(), schedule)
      modifies this, disk
      ensures (Abs(), frame) == BufferPool.TakeFrame(old(Abs()), schedule)
    {
      if free != [] {
        frame := Some(free[0]);
        free := free[1..];
      } else if lru != [] {
        var f := lru[|lru| - 1];
        assert f in lru;
        lru := lru[..|lru| - 1];
        if pages[f].dirty {
          disk.WritePageAsync(pages[f].pid, f);
          SpinWait(schedule);
        }
        table := table - {pages[f].pid};
        frame := Some(f);
      } else {
        frame := None;
      }
    }

    method FetchPage(pid: PageId, schedule: seq<seq<nat>>) returns (frame: Option<nat>)
      requires Valid(Abs()) && (pid in table || TakeReady(Abs(), schedule))
      modifies this, pages, disk
      ensures (Abs(), frame) == Fetch(old(Abs()), pid, schedule)
      ensures Valid(Abs())
    {
      FetchValid(Abs(), pid, schedule);
      if pid in table {
        var f := table[pid];
        pages[f] := pages[f].(pin := pages[f].pin + 1);
        lru := Remove(lru, f);
        return Some(f);
      }
      TakeFrameDetaches(Abs(), schedule);
      frame := TakeFrame(schedule);
      if frame.Some? {
        var f := frame.value;
        var data := disk.ReadPage(pid);
        pages[f] := Frame(data, pid, 1, false);
        table := table[pid := f];
      }
    }

    method NewPage(schedule: seq<seq<nat>>) returns (frame: Option<nat>, pid: PageId)
      requires Valid(Abs()) && TakeReady(Abs(), schedule)
      modifies this, pages, disk
      ensures (Abs(), frame) == New(old(Abs()), schedule)
      ensures frame.Some? ==> pid == old(disk.nextPageId)
      ensures frame.None? ==> Abs() == old(Abs())
      ensures frame.Some? ==> (Valid(Abs()) <==> FreshId(old(Abs())))
    {
      if New(Abs(), schedule).1.Some? { NewExact(Abs(), schedule); }
      TakeFrameDetaches(Abs(), schedule);
      TakeFrameDisk(Abs(), schedule);
      frame := TakeFrame(schedule);
      pid := INVALID_PAGE_ID;
      if frame.Some? {
        var f := frame.value;
        pid := disk.AllocatePage();
        pages[f] := Frame(ZeroPage(), pid, 1, false);
        table := table[pid := f];
      }
    }

    method UnpinPage(pid: PageId, dirty: bool) returns (found: bool)
      requires Valid(Abs()) && CanUnpin(Abs(), pid)
      modifies this, pages
      ensures Abs() == Unpin(old(Abs()), pid, dirty) && found == (pid in old(table))
      ensures Valid(Abs())
    {
      UnpinValid(Abs(), pid, dirty);
      if pid !in table { return false; }
      var f := table[pid];
      if dirty { pages[f] := pages[f].(dirty := true); }
      var previous := pages[f].pin;
      pages[f] := pages[f].(pin := previous - 1);
      if previous == 1 { lru := [f] + lru; }
      return true;
    }

    method FlushPage(pid: PageId) returns (found: bool)
      requires Valid(Abs())
      modifies pages, disk
      ensures Abs() == Flush(old(Abs()), pid) && found == (pid in table)
      ensures Valid(Abs())
    {
      if pid !in table { return false; }
      var f := table[pid];
      FrameDataValid(Abs(), f, pages[f].data, false, Submit(disk.Abs(), pid, f));
      if pages[f].dirty {
        disk.WritePageAsync(pid, f);
        pages[f] := pages[f].(dirty := false);
      }
      return true;
    }

    /** Flushes the page table in its iteration order, then polls once: the loop around the
        poll tests for a negative count and never repeats. */
    method FlushAllPages(pids: seq<PageId>, order: seq<nat>)
      requires Valid(Abs()) && (set p | p in pids) == table.Keys
      requires var t := FlushEach(Abs(), pids); CanLandAll(t.disk, t.frames, order)
      modifies pages, disk
      ensures var t := FlushEach(old(Abs()), pids);
              Abs() == t.(disk := Retrieve(t.disk, t.frames, order))
    {
      var rest := pids;
      while rest != []
        invariant Valid(Abs())
        invariant FlushEach(Abs(), rest) == FlushEach(old(Abs()), pids)
        decreases rest
      {
        var _ := FlushPage(rest[0]);
        rest := rest[1..];
      }
      var _ := disk.RetrieveAsyncCompletions(pages[..], order);
    }

    /** A client that holds a pin stores bytes through the page pointer. */
    method StoreBytes(pid: PageId, data: PageData, mark: bool)
      requires Valid(Abs()) && pid in table && pages[table[pid]].pin > 0
      modifies pages
      ensures Abs() == ClientWrite(old(Abs()), pid, data, mark)
      ensures Valid(Abs())
    {
      var f := table[pid];
      FrameDataValid(Abs(), f, data, pages[f].dirty || mark, disk.Abs());
      pages[f] := pages[f].(data := data, dirty := pages[f].dirty || mark);
    }
  }
}
