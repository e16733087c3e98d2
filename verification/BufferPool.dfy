/**
 The buffer pool as a value: frames, page table, LRU list, free list and the disk below.
 Every public call is one step on this value.
 */
module BufferPool {
  import opened Config
  import opened Disk

  datatype Pool = Pool(frames: seq<Frame>, table: map<PageId, nat>, lru: seq<nat>, free: seq<nat>, disk: Disk)

  function EmptyFrame(): Frame {
    Frame(ZeroPage(), INVALID_PAGE_ID, 0, false)
  }

  /** A pool of n empty frames. */
  function Fresh(n: nat, disk: Disk): Pool {
    Pool(seq(n, i => EmptyFrame()), map[], [], seq(n, i => i), disk)
  }

  predicate Mapped(s: Pool, f: nat)
    requires f < |s.frames|
  {
    s.frames[f].pid in s.table && s.table[s.frames[f].pid] == f
  }

  /** Every frame number in the free list and the page table is one of the pool's frames. */
  predicate InRange(s: Pool) {
    && (forall i :: 0 <= i < |s.free| ==> s.free[i] < |s.frames|)
    && (forall p :: p in s.table ==> s.table[p] < |s.frames|)
  }

  /** The frame partition: a frame is free, or an unpinned candidate for eviction, or
      pinned. The page table agrees with the frames, so it is injective. */
  ghost predicate Valid(s: Pool) {
    && InRange(s)
    && NoDup(s.lru) && NoDup(s.free)
    && (forall f :: f in s.lru ==> f < |s.frames|)
    && (forall p :: p in s.table ==> s.frames[s.table[p]].pid == p)
    && (forall f: nat :: f < |s.frames| ==> (f in s.free <==> !Mapped(s, f)))
    && (forall f: nat :: f < |s.frames| ==> (f in s.lru <==> Mapped(s, f) && s.frames[f].pin == 0))
    && (forall f: nat :: f < |s.frames| && !Mapped(s, f) ==> s.frames[f].pin == 0)
  }

  /** Frame f has been taken: no list and no table entry names it; all else is valid. */
  ghost predicate Detached(s: Pool, f: nat) {
    && f < |s.frames| && f !in s.lru && f !in s.free
    && NoDup(s.lru) && NoDup(s.free)
    && (forall g :: g in s.lru ==> g < |s.frames|)
    && InRange(s)
    && (forall p :: p in s.table ==> s.table[p] != f && s.frames[s.table[p]].pid == p)
    && (forall g: nat :: g < |s.frames| && g != f ==> (g in s.free <==> !Mapped(s, g)))
    && (forall g: nat :: g < |s.frames| && g != f ==> (g in s.lru <==> Mapped(s, g) && s.frames[g].pin == 0))
    && (forall g: nat :: g < |s.frames| && g != f && !Mapped(s, g) ==> s.frames[g].pin == 0)
  }

  /** The frame the next eviction takes. */
  function Victim(s: Pool): nat
    requires s.lru != []
  {
    s.lru[|s.lru| - 1]
  }

  predicate Evicts(s: Pool) {
    s.free == [] && s.lru != [] && Victim(s) < |s.frames|
  }

  /** The device schedule lets the eviction's spin-wait end, if there is one. */
  predicate TakeReady(s: Pool, schedule: seq<seq<nat>>) {
    Evicts(s) && s.frames[Victim(s)].dirty ==>
      WaitEnds(Submit(s.disk, s.frames[Victim(s)].pid, Victim(s)), s.frames, schedule)
  }

  /** Takes a frame: the head of the free list, or else the LRU victim, written out first
      when dirty. Nothing changes when neither list has a frame. */
  function TakeFrame(s: Pool, schedule: seq<seq<nat>>): (Pool, Option<nat>)
    requires TakeReady(s, schedule)
  {
    if s.free != [] then (s.(free := s.free[1..]), Some(s.free[0]))
    else if Evicts(s) then
      var f := Victim(s);
      var pid := s.frames[f].pid;
      var disk := if s.frames[f].dirty then Wait(Submit(s.disk, pid, f), s.frames, schedule) else s.disk;
      (s.(lru := s.lru[..|s.lru| - 1], table := s.table - {pid}, disk := disk), Some(f))
    else (s, None)
  }

  /** Puts a page into a taken frame, pinned once and clean. */
  function Install(s: Pool, f: nat, pid: PageId, data: PageData): Pool
    requires f < |s.frames|
  {
    s.(frames := s.frames[f := Frame(data, pid, 1, false)], table := s.table[pid := f])
  }

  function Fetch(s: Pool, pid: PageId, schedule: seq<seq<nat>>): (Pool, Option<nat>)
    requires InRange(s)
    requires pid in s.table || TakeReady(s, schedule)
  {
    if pid in s.table then
      var f := s.table[pid];
      (s.(frames := s.frames[f := s.frames[f].(pin := s.frames[f].pin + 1)], lru := Remove(s.lru, f)), Some(f))
    else
      var (t, got) := TakeFrame(s, schedule);
      if got.None? then (s, None)
      else (Install(t, got.value, pid, ReadPage(t.disk, pid)), got)
  }

  /** A new page is zero bytes, under the next id of the disk manager, and marked clean. */
  function New(s: Pool, schedule: seq<seq<nat>>): (Pool, Option<nat>)
    requires InRange(s)
    requires TakeReady(s, schedule)
  {
    var (t, got) := TakeFrame(s, schedule);
    if got.None? then (s, None)
    else (Install(t.(disk := AllocatePage(t.disk)), got.value, t.disk.nextPageId, ZeroPage()), got)
  }

  /** The next page id is not that of a page that stays resident: nobody has it, or only the
      victim of the eviction that NewPage is about to do. */
  predicate FreshId(s: Pool) {
    s.disk.nextPageId in s.table ==> s.free == [] && Evicts(s) && s.frames[Victim(s)].pid == s.disk.nextPageId
  }

  /** Unpinning needs a pin to give back, as the source asserts. */
  predicate CanUnpin(s: Pool, pid: PageId) {
    pid in s.table ==> s.table[pid] < |s.frames| && s.frames[s.table[pid]].pin > 0
  }

  function Unpin(s: Pool, pid: PageId, dirty: bool): Pool
    requires CanUnpin(s, pid)
  {
    if pid !in s.table then s
    else
      var f := s.table[pid];
      var frame := s.frames[f];
      s.(frames := s.frames[f := frame.(pin := frame.pin - 1, dirty := frame.dirty || dirty)],
         lru := if frame.pin == 1 then [f] + s.lru else s.lru)
  }

  function Flush(s: Pool, pid: PageId): Pool
    requires InRange(s)
  {
    if pid !in s.table || !s.frames[s.table[pid]].dirty then s
    else
      var f := s.table[pid];
      s.(frames := s.frames[f := s.frames[f].(dirty := false)], disk := Submit(s.disk, pid, f))
  }

  /** Flushes the listed pages in turn; a full flush lists the page table in its own order. */
  function FlushEach(s: Pool, pids: seq<PageId>): Pool
    requires InRange(s)
    decreases pids
  {
    if pids == [] then s else FlushEach(Flush(s, pids[0]), pids[1..])
  }

  /** A client stores bytes in a page it has pinned, through the page pointer; some clients
      also raise the page's dirty flag themselves. */
  function ClientWrite(s: Pool, pid: PageId, data: PageData, mark: bool): Pool
    requires pid in s.table && s.table[pid] < |s.frames|
  {
    var f := s.table[pid];
    s.(frames := s.frames[f := s.frames[f].(data := data, dirty := s.frames[f].dirty || mark)])
  }

  /** Stores bytes in a page that is pinned and gives the pin back dirty. */
  function PutBack(s: Pool, pid: PageId, data: PageData): Pool {
    if pid in s.table && s.table[pid] < |s.frames| && s.frames[s.table[pid]].pin > 0
    then Unpin(ClientWrite(s, pid, data, false), pid, true) else s
  }

  /** What a reader of page p sees: the frame if the page is resident, else the disk. */
  function Content(s: Pool, p: PageId): PageData
    requires InRange(s)
  {
    if p in s.table then s.frames[s.table[p]].data else ReadPage(s.disk, p)
  }

  function PinCount(s: Pool, p: PageId): nat
    requires InRange(s)
  {
    if p in s.table then s.frames[s.table[p]].pin else 0
  }

  // ---------------------------------------------------------------- frame partition

  lemma FreshValid(n: nat, disk: Disk)
    ensures Valid(Fresh(n, disk))
  {
    var s := Fresh(n, disk);
    forall f: nat | f < n ensures f in s.free { assert s.free[f] == f; }
  }

  lemma FreeHeadDetaches(s: Pool)
    requires Valid(s) && s.free != []
    ensures Detached(s.(free := s.free[1..]), s.free[0])
  {
    var t := s.(free := s.free[1..]);
    assert s.free == [s.free[0]] + s.free[1..];
    assert s.free[0] in s.free;
    assert forall g :: g in t.free <==> g in s.free && g != s.free[0];
  }

  lemma VictimDetaches(s: Pool, disk: Disk)
    requires Valid(s) && Evicts(s)
    ensures Detached(s.(lru := s.lru[..|s.lru| - 1], table := s.table - {s.frames[Victim(s)].pid}, disk := disk), Victim(s))
  {
    var f := Victim(s);
    var lru := s.lru[..|s.lru| - 1];
    assert f in s.lru;
    assert s.lru == lru + [f];
    assert forall g :: g in lru <==> g in s.lru && g != f;
  }

  lemma TakeFrameDetaches(s: Pool, schedule: seq<seq<nat>>)
    requires Valid(s) && TakeReady(s, schedule)
    ensures var (t, got) := TakeFrame(s, schedule);
            && t.frames == s.frames
            && (got.None? ==> t == s)
            && (got.Some? ==> Detached(t, got.value))
  {
    if s.free != [] {
      FreeHeadDetaches(s);
    } else if Evicts(s) {
      VictimDetaches(s, TakeFrame(s, schedule).0.disk);
    }
  }

  /** There is no frame to take exactly when every frame is pinned. */
  lemma TakeFrameFails(s: Pool, schedule: seq<seq<nat>>)
    requires Valid(s) && TakeReady(s, schedule)
    ensures TakeFrame(s, schedule).1.None? <==> forall f: nat :: f < |s.frames| ==> s.frames[f].pin > 0
  {
    if s.free != [] {
      assert s.free[0] in s.free && s.frames[s.free[0]].pin == 0;
    } else if s.lru != [] {
      assert Victim(s) in s.lru && s.frames[Victim(s)].pin == 0;
    } else {
      forall f: nat | f < |s.frames| ensures s.frames[f].pin > 0 {
        assert f !in s.free && f !in s.lru;
      }
    }
  }

  lemma InstallValid(s: Pool, f: nat, pid: PageId, data: PageData)
    requires Detached(s, f) && pid !in s.table
    ensures Valid(Install(s, f, pid, data))
  {
    var t := Install(s, f, pid, data);
    assert Mapped(t, f);
    forall g: nat | g < |t.frames| && g != f ensures Mapped(t, g) <==> Mapped(s, g) {}
  }

  lemma HitValid(s: Pool, pid: PageId, schedule: seq<seq<nat>>)
    requires Valid(s) && pid in s.table
    ensures Valid(Fetch(s, pid, schedule).0)
  {
    var f := s.table[pid];
    var t := Fetch(s, pid, schedule).0;
    RemoveNoDup(s.lru, f);
    forall g: nat | g < |t.frames| ensures Mapped(t, g) <==> Mapped(s, g) {}
  }

  /** A miss finds no frame exactly when every frame is pinned, and then nothing changes. */
  lemma FetchValid(s: Pool, pid: PageId, schedule: seq<seq<nat>>)
    requires Valid(s) && (pid in s.table || TakeReady(s, schedule))
    ensures var (t, got) := Fetch(s, pid, schedule);
            && Valid(t)
            && (got.Some? ==> got.value < |t.frames| && pid in t.table && t.table[pid] == got.value)
            && (got.None? ==> t == s)
            && (got.None? <==> pid !in s.table && forall f: nat :: f < |s.frames| ==> s.frames[f].pin > 0)
  {
    if pid in s.table {
      HitValid(s, pid, schedule);
    } else {
      TakeFrameDetaches(s, schedule);
      TakeFrameFails(s, schedule);
      var (t, got) := TakeFrame(s, schedule);
      if got.Some? {
        InstallValid(t, got.value, pid, ReadPage(t.disk, pid));
      }
    }
  }

  /** A page that was not resident is loaded from the disk as it is after the eviction,
      pinned once and clean. */
  lemma MissLoads(s: Pool, pid: PageId, schedule: seq<seq<nat>>)
    requires Valid(s) && pid !in s.table && TakeReady(s, schedule) && Fetch(s, pid, schedule).1.Some?
    ensures var (t, got) := Fetch(s, pid, schedule);
            got.value < |t.frames| && t.frames[got.value] == Frame(ReadPage(t.disk, pid), pid, 1, false)
  {
    TakeFrameDetaches(s, schedule);
  }

  /** A hit pins its frame and takes it off the LRU list; bytes, page id and dirty flag of
      every frame stay as they are. */
  lemma HitKeepsFrames(s: Pool, pid: PageId, schedule: seq<seq<nat>>)
    requires Valid(s) && pid in s.table
    ensures var (t, got) := Fetch(s, pid, schedule);
            && got == Some(s.table[pid]) && |t.frames| == |s.frames| && t.disk == s.disk && t.table == s.table
            && forall f: nat :: f < |s.frames| ==>
                 t.frames[f] == s.frames[f].(pin := s.frames[f].pin + if f == s.table[pid] then 1 else 0)
  {}

  /** A new page is zero bytes, pinned once and clean, and no other frame changes. */
  lemma NewIsClean(s: Pool, schedule: seq<seq<nat>>)
    requires Valid(s) && TakeReady(s, schedule) && New(s, schedule).1.Some?
    ensures var (t, got) := New(s, schedule);
            && got.value < |t.frames| && |t.frames| == |s.frames|
            && t.frames[got.value] == Frame(ZeroPage(), s.disk.nextPageId, 1, false)
            && forall f: nat :: f < |s.frames| && f != got.value ==> t.frames[f] == s.frames[f]
  {
    TakeFrameDetaches(s, schedule);
    TakeFrameDisk(s, schedule);
  }

  lemma NewValid(s: Pool, schedule: seq<seq<nat>>)
    requires Valid(s) && TakeReady(s, schedule) && (New(s, schedule).1.Some? ==> FreshId(s))
    ensures var (t, got) := New(s, schedule);
            && Valid(t)
            && (got.Some? ==> got.value < |t.frames| && t.frames[got.value].pin == 1 && Mapped(t, got.value))
            && (got.None? ==> t == s)
            && (got.None? <==> forall f: nat :: f < |s.frames| ==> s.frames[f].pin > 0)
  {
    TakeFrameDetaches(s, schedule);
    TakeFrameFails(s, schedule);
    var got := New(s, schedule).1;
    if got.Some? { NewExact(s, schedule); }
  }

  lemma FreshIdLeaves(s: Pool, schedule: seq<seq<nat>>)
    requires Valid(s) && TakeReady(s, schedule) && TakeFrame(s, schedule).1.Some?
    ensures FreshId(s) <==> s.disk.nextPageId !in TakeFrame(s, schedule).0.table
  {
    if s.free == [] { assert Victim(s) in s.lru; }
  }

  /** When NewPage has a frame, it keeps the partition exactly if its id is not that of a
      page still resident: the source does not look, and would map two frames to one page. */
  lemma NewExact(s: Pool, schedule: seq<seq<nat>>)
    requires Valid(s) && TakeReady(s, schedule) && New(s, schedule).1.Some?
    ensures Valid(New(s, schedule).0) <==> FreshId(s)
  {
    FreshIdLeaves(s, schedule);
    TakeFrameDetaches(s, schedule);
    TakeFrameDisk(s, schedule);
    var (t, got) := TakeFrame(s, schedule);
    var id := s.disk.nextPageId;
    var a := t.(disk := AllocatePage(t.disk));
    forall g: nat | g < |t.frames| ensures Mapped(a, g) <==> Mapped(t, g) {}
    if id in t.table {
      var g := t.table[id];
      assert Mapped(t, g) && g !in t.free;
      assert !Mapped(New(s, schedule).0, g);
    } else {
      InstallValid(a, got.value, id, ZeroPage());
    }
  }

  /** Taking a frame never touches the id counter. */
  lemma TakeFrameDisk(s: Pool, schedule: seq<seq<nat>>)
    requires TakeReady(s, schedule)
    ensures TakeFrame(s, schedule).0.disk.nextPageId == s.disk.nextPageId
  {
    if s.free == [] && Evicts(s) && s.frames[Victim(s)].dirty {
      WaitKeepsCounter(Submit(s.disk, s.frames[Victim(s)].pid, Victim(s)), s.frames, schedule);
    }
  }

  lemma {:induction false} WaitKeepsCounter(d: Disk, frames: seq<Frame>, schedule: seq<seq<nat>>)
    requires WaitEnds(d, frames, schedule)
    ensures Wait(d, frames, schedule).nextPageId == d.nextPageId
    decreases schedule
  {
    LandAllKeepsCounter(d, frames, schedule[0]);
    if LandAll(d, frames, schedule[0]).done == 0 {
      WaitKeepsCounter(Retrieve(d, frames, schedule[0]), frames, schedule[1..]);
    }
  }

  lemma {:induction false} LandAllKeepsCounter(d: Disk, frames: seq<Frame>, order: seq<nat>)
    requires CanLandAll(d, frames, order)
    ensures LandAll(d, frames, order).nextPageId == d.nextPageId
    decreases order
  {
    if order == [] {
    } else {
      LandAllKeepsCounter(Land(d, frames, order[0]), frames, order[1..]);
    }
  }

  lemma UnpinValid(s: Pool, pid: PageId, dirty: bool)
    requires Valid(s) && CanUnpin(s, pid)
    ensures Valid(Unpin(s, pid, dirty))
  {
    var t := Unpin(s, pid, dirty);
    if pid in s.table {
      var f := s.table[pid];
      assert Mapped(s, f) && f !in s.lru;
      forall g: nat | g < |t.frames| ensures Mapped(t, g) <==> Mapped(s, g) {}
      assert forall g :: g in t.lru <==> g in s.lru || (s.frames[f].pin == 1 && g == f);
    }
  }

  lemma FrameDataValid(s: Pool, f: nat, data: PageData, dirty: bool, disk: Disk)
    requires Valid(s) && f < |s.frames|
    ensures Valid(s.(frames := s.frames[f := s.frames[f].(data := data, dirty := dirty)], disk := disk))
  {
    var t := s.(frames := s.frames[f := s.frames[f].(data := data, dirty := dirty)], disk := disk);
    forall g: nat | g < |t.frames| ensures Mapped(t, g) <==> Mapped(s, g) {}
  }

  // ---------------------------------------------------------------- pin counts

  /** Opening a page pins it once more and touches no other pin count. */
  lemma InstallPins(s: Pool, t: Pool, f: nat, pid: PageId, data: PageData)
    requires Valid(s) && Detached(t, f) && t.frames == s.frames && pid !in t.table
    requires forall p :: p in t.table ==> p in s.table && t.table[p] == s.table[p]
    requires forall p :: p in s.table && p !in t.table ==> s.frames[s.table[p]].pin == 0
    ensures InRange(Install(t, f, pid, data))
    ensures forall q :: PinCount(Install(t, f, pid, data), q) == PinCount(s, q) + (if q == pid then 1 else 0)
  {}

  lemma TakeFramePins(s: Pool, schedule: seq<seq<nat>>)
    requires Valid(s) && TakeReady(s, schedule)
    ensures var t := TakeFrame(s, schedule).0;
            && (forall p :: p in t.table ==> p in s.table && t.table[p] == s.table[p])
            && (forall p :: p in s.table && p !in t.table ==> s.frames[s.table[p]].pin == 0)
  {
    if s.free == [] && s.lru != [] { assert Victim(s) in s.lru; }
  }

  lemma FetchPins(s: Pool, pid: PageId, schedule: seq<seq<nat>>)
    requires Valid(s) && (pid in s.table || TakeReady(s, schedule)) && Fetch(s, pid, schedule).1.Some?
    ensures var t := Fetch(s, pid, schedule).0;
            InRange(t) && forall q :: PinCount(t, q) == PinCount(s, q) + (if q == pid then 1 else 0)
  {
    FetchValid(s, pid, schedule);
    if pid !in s.table {
      TakeFrameDetaches(s, schedule);
      TakeFramePins(s, schedule);
      var (t, got) := TakeFrame(s, schedule);
      InstallPins(s, t, got.value, pid, ReadPage(t.disk, pid));
    }
  }

  lemma NewPins(s: Pool, schedule: seq<seq<nat>>)
    requires Valid(s) && TakeReady(s, schedule) && FreshId(s) && New(s, schedule).1.Some?
    ensures var t := New(s, schedule).0;
            InRange(t) && forall q :: PinCount(t, q) == PinCount(s, q) + (if q == s.disk.nextPageId then 1 else 0)
  {
    TakeFrameDetaches(s, schedule);
    TakeFrameDisk(s, schedule);
    FreshIdLeaves(s, schedule);
    TakeFramePins(s, schedule);
    var (t, got) := TakeFrame(s, schedule);
    var a := t.(disk := AllocatePage(t.disk));
    forall g: nat | g < |t.frames| ensures Mapped(a, g) <==> Mapped(t, g) {}
    InstallPins(s, a, got.value, t.disk.nextPageId, ZeroPage());
  }

  lemma UnpinPins(s: Pool, pid: PageId, dirty: bool)
    requires Valid(s) && CanUnpin(s, pid) && pid in s.table
    ensures InRange(Unpin(s, pid, dirty))
    ensures forall q :: PinCount(Unpin(s, pid, dirty), q) == PinCount(s, q) - (if q == pid then 1 else 0)
  {}
}
