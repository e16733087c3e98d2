/**
 Whole runs of the buffer pool over an asynchronous disk.

 A run interleaves calls of the pool, writes by clients through their page pointers, and
 the device landing writes at any moment. The pool plus the disk then behaves as a plain
 store of pages: eviction, flushing and reloading never change what a page holds.
 */
module PoolRuns {
  import opened Config
  import opened Disk
  import opened BufferPool

  datatype Step =
    | Fetching(pid: PageId, schedule: seq<seq<nat>>)
    | Creating(schedule: seq<seq<nat>>)
    | Unpinning(pid: PageId, dirty: bool)
    | Flushing(pid: PageId)
    | Writing(pid: PageId, data: PageData, mark: bool)
    | Landing(index: nat)
    | Polling(order: seq<nat>)

  /** The pool, and the pages a client has written since the last time they were marked
      dirty: somebody still owes these a dirty unpin. */
  datatype State = State(pool: Pool, owed: set<PageId>)

  /** When a frame may be reused. A clean victim must not be the source of a write in
      flight. A dirty victim needs more: the wait after its write accepts any completion,
      so nothing else may be in flight and no old completion may be queued. */
  ghost predicate ReuseSafe(s: Pool) {
    Evicts(s) ==>
      if s.frames[Victim(s)].dirty then s.disk.inflight == [] && s.disk.done == 0
      else forall w :: w in s.disk.inflight ==> w.frame != Victim(s)
  }

  /** What the code relies on to be defined at all: a schedule that ends its wait, a pin to
      give back, a page pointer that is held. */
  ghost predicate Defined(s: Pool, step: Step) {
    InRange(s) &&
    match step
    case Fetching(pid, schedule) => pid in s.table || TakeReady(s, schedule)
    case Creating(schedule) => TakeReady(s, schedule)
    case Unpinning(pid, dirty) => CanUnpin(s, pid)
    case Flushing(pid) => true
    case Writing(pid, data, mark) => pid in s.table && PinCount(s, pid) > 0
    case Landing(i) => CanLand(s.disk, s.frames, i)
    case Polling(order) => CanLandAll(s.disk, s.frames, order)
  }

  /** And a NewPage that gets a frame must not be given the id of a page that stays resident. */
  ghost predicate Legal(s: Pool, step: Step) {
    Defined(s, step) && (step.Creating? && New(s, step.schedule).1.Some? ==> FreshId(s))
  }

  ghost function NextPool(s: Pool, step: Step): Pool
    requires Defined(s, step)
  {
    match step
    case Fetching(pid, schedule) => Fetch(s, pid, schedule).0
    case Creating(schedule) => New(s, schedule).0
    case Unpinning(pid, dirty) => Unpin(s, pid, dirty)
    case Flushing(pid) => Flush(s, pid)
    case Writing(pid, data, mark) => ClientWrite(s, pid, data, mark)
    case Landing(i) => s.(disk := Land(s.disk, s.frames, i))
    case Polling(order) => s.(disk := Retrieve(s.disk, s.frames, order))
  }

  /** What callers have to respect on top: frames are reused safely, nothing is stored under a
      new page's id, and a writer unpins with dirty == true; it is enough that the last pin does. */
  ghost predicate Enabled(st: State, step: Step) {
    var s := st.pool;
    && Valid(s) && Legal(s, step)
    && match step
       case Fetching(pid, schedule) => pid in s.table || ReuseSafe(s)
       case Creating(schedule) =>
         ReuseSafe(s) && (New(s, schedule).1.Some? ==> Content(s, s.disk.nextPageId) == ZeroPage())
       case Unpinning(pid, dirty) => pid in st.owed && !dirty ==> PinCount(s, pid) > 1
       case _ => true
  }

  ghost function Next(st: State, step: Step): State
    requires Enabled(st, step)
  {
    Proceed(st, step)
  }

  /** What a step leads to, whether or not the callers respect all that. */
  ghost function Proceed(st: State, step: Step): State
    requires Defined(st.pool, step)
  {
    var s := st.pool;
    var owed := match step
                case Unpinning(pid, dirty) => if dirty then st.owed - {pid} else st.owed
                case Writing(pid, data, mark) =>
                  if mark || s.frames[s.table[pid]].dirty then st.owed - {pid} else st.owed + {pid}
                case _ => st.owed;
    State(NextPool(s, step), owed)
  }

  // ---------------------------------------------------------------- the frame partition

  /** Writes in flight read from frames that have been taken from the free list. */
  ghost predicate WritesInUse(s: Pool) {
    forall w :: w in s.disk.inflight ==> w.frame < |s.frames| && w.frame !in s.free
  }

  lemma TakeFrameInUse(s: Pool, schedule: seq<seq<nat>>)
    requires Valid(s) && WritesInUse(s) && TakeReady(s, schedule)
    ensures WritesInUse(TakeFrame(s, schedule).0)
  {
    if s.free == [] && Evicts(s) && s.frames[Victim(s)].dirty {
      WaitShrinks(Submit(s.disk, s.frames[Victim(s)].pid, Victim(s)), s.frames, schedule);
    }
  }

  /** Every step of the code, however careless its callers, keeps the frame partition. */
  lemma StepPartitioned(s: Pool, step: Step)
    requires Valid(s) && WritesInUse(s) && Legal(s, step)
    ensures Valid(NextPool(s, step)) && WritesInUse(NextPool(s, step))
  {
    match step
    case Fetching(pid, schedule) => FetchPartitioned(s, pid, schedule);
    case Creating(schedule) => NewPartitioned(s, schedule);
    case Unpinning(pid, dirty) => UnpinValid(s, pid, dirty);
    case Flushing(pid) => FlushPartitioned(s, pid);
    case Writing(pid, data, mark) => WriteValid(s, pid, data, mark);
    case Landing(i) => LandPartitioned(s, Land(s.disk, s.frames, i));
    case Polling(order) =>
      LandAllShrinks(s.disk, s.frames, order);
      LandPartitioned(s, Retrieve(s.disk, s.frames, order));
  }

  lemma FetchPartitioned(s: Pool, pid: PageId, schedule: seq<seq<nat>>)
    requires Valid(s) && WritesInUse(s) && (pid in s.table || TakeReady(s, schedule))
    ensures Valid(Fetch(s, pid, schedule).0) && WritesInUse(Fetch(s, pid, schedule).0)
  {
    FetchValid(s, pid, schedule);
    if pid !in s.table {
      TakeFrameInUse(s, schedule);
      TakeFrameDetaches(s, schedule);
    }
  }

  lemma NewPartitioned(s: Pool, schedule: seq<seq<nat>>)
    requires Valid(s) && WritesInUse(s) && Legal(s, Creating(schedule))
    ensures Valid(New(s, schedule).0) && WritesInUse(New(s, schedule).0)
  {
    NewValid(s, schedule);
    TakeFrameInUse(s, schedule);
    TakeFrameDetaches(s, schedule);
  }

  lemma LandPartitioned(s: Pool, disk: Disk)
    requires Valid(s) && WritesInUse(s) && forall w :: w in disk.inflight ==> w in s.disk.inflight
    ensures Valid(s.(disk := disk)) && WritesInUse(s.(disk := disk))
  {
    DiskValid(s, disk);
  }

  lemma DiskValid(s: Pool, disk: Disk)
    requires Valid(s)
    ensures Valid(s.(disk := disk))
  {
    forall g: nat | g < |s.frames| ensures Mapped(s.(disk := disk), g) <==> Mapped(s, g) {}
  }

  lemma FlushPartitioned(s: Pool, pid: PageId)
    requires Valid(s) && WritesInUse(s)
    ensures Valid(Flush(s, pid)) && WritesInUse(Flush(s, pid))
  {
    if Flush(s, pid) != s {
      var f := s.table[pid];
      assert Mapped(s, f) && f !in s.free;
      FrameDataValid(s, f, s.frames[f].data, false, Submit(s.disk, pid, f));
      assert Flush(s, pid) == s.(frames := s.frames[f := s.frames[f].(data := s.frames[f].data, dirty := false)],
                                 disk := Submit(s.disk, pid, f));
    }
  }

  lemma WriteValid(s: Pool, pid: PageId, data: PageData, mark: bool)
    requires Valid(s) && pid in s.table
    ensures Valid(ClientWrite(s, pid, data, mark))
  {
    var f := s.table[pid];
    FrameDataValid(s, f, data, s.frames[f].dirty || mark, s.disk);
    assert ClientWrite(s, pid, data, mark) ==
           s.(frames := s.frames[f := s.frames[f].(data := data, dirty := s.frames[f].dirty || mark)], disk := s.disk);
  }

  ghost predicate IsLegalRun(s: Pool, steps: seq<Step>)
    decreases steps
  {
    steps == [] || (Legal(s, steps[0]) && IsLegalRun(NextPool(s, steps[0]), steps[1..]))
  }

  ghost function LegalRun(s: Pool, steps: seq<Step>): Pool
    requires IsLegalRun(s, steps)
    decreases steps
  {
    if steps == [] then s else LegalRun(NextPool(s, steps[0]), steps[1..])
  }

  lemma {:induction false} LegalRunPartitioned(s: Pool, steps: seq<Step>)
    requires Valid(s) && WritesInUse(s) && IsLegalRun(s, steps)
    ensures Valid(LegalRun(s, steps)) && WritesInUse(LegalRun(s, steps))
    decreases steps
  {
    if steps == [] {
    } else {
      StepPartitioned(s, steps[0]);
      LegalRunPartitioned(NextPool(s, steps[0]), steps[1..]);
    }
  }

  /** The free list of a pool of n frames: the last frames, in order. */
  ghost predicate FreeInOrder(s: Pool, n: nat) {
    && |s.frames| == n && |s.free| <= n
    && forall i :: 0 <= i < |s.free| ==> s.free[i] == n - |s.free| + i
  }

  lemma StepFreeInOrder(s: Pool, step: Step, n: nat)
    requires Valid(s) && Defined(s, step) && FreeInOrder(s, n)
    ensures FreeInOrder(NextPool(s, step), n) && |NextPool(s, step).free| <= |s.free|
    ensures |NextPool(s, step).free| < |s.free| ==>
              |NextPool(s, step).free| == |s.free| - 1 && Mapped(NextPool(s, step), n - |s.free|)
  {
    if step.Fetching? && step.pid !in s.table { TakeFrameDetaches(s, step.schedule); }
    if step.Creating? { TakeFrameDetaches(s, step.schedule); }
  }

  /** Frames are put to use in the order 0, 1, 2, ...: in every run the free list is the rest. */
  lemma {:induction false} FramesUsedInOrder(s: Pool, steps: seq<Step>, n: nat)
    requires Valid(s) && WritesInUse(s) && IsLegalRun(s, steps) && FreeInOrder(s, n)
    ensures FreeInOrder(LegalRun(s, steps), n)
    decreases steps
  {
    if steps == [] {
    } else {
      StepPartitioned(s, steps[0]);
      StepFreeInOrder(s, steps[0], n);
      FramesUsedInOrder(NextPool(s, steps[0]), steps[1..], n);
    }
  }

  /** The condition on ids is the only one: a step keeps the partition exactly if it is no
      NewPage under the id of a page that stays resident. */
  lemma StepPartitionedExact(s: Pool, step: Step)
    requires Valid(s) && WritesInUse(s) && Defined(s, step)
    ensures Valid(NextPool(s, step)) <==> Legal(s, step)
  {
    if Legal(s, step) { StepPartitioned(s, step); } else { NewExact(s, step.schedule); }
  }

  /** In every state the code can reach without giving a new page the id of a resident one,
      also after frames were reused too early or writers lied about dirtiness, each frame is free, evictable or pinned, the page table is
      injective, and reuse of a frame is free of races exactly under ReuseSafe. */
  lemma EveryRunPartitioned(n: nat, disk: Disk, steps: seq<Step>)
    requires disk.inflight == [] && IsLegalRun(Fresh(n, disk), steps)
    ensures var s := LegalRun(Fresh(n, disk), steps);
            && Valid(s) && WritesInUse(s) && FreeInOrder(s, n)
            && (exists schedule :: TakeReady(s, schedule))
            && (ReuseNeverRaces(s) <==> ReuseSafe(s))
  {
    FreshValid(n, disk);
    LegalRunPartitioned(Fresh(n, disk), steps);
    FramesUsedInOrder(Fresh(n, disk), steps, n);
    WaitCanEnd(LegalRun(Fresh(n, disk), steps));
    ReuseExact(LegalRun(Fresh(n, disk), steps));
  }

  // ---------------------------------------------------------------- the invariant

  /** Every write in flight reads from the frame that still holds its page. */
  ghost predicate WritesOnTarget(s: Pool) {
    forall w :: w in s.disk.inflight ==> w.pid in s.table && s.table[w.pid] == w.frame
  }

  ghost predicate BeingWritten(s: Pool, p: PageId) {
    exists w :: w in s.disk.inflight && w.pid == p
  }

  /** A resident page that is clean, not owed and not being written equals the disk. */
  ghost predicate CleanMatches(st: State, p: PageId)
    requires InRange(st.pool)
  {
    p in st.pool.table && !st.pool.frames[st.pool.table[p]].dirty && p !in st.owed && !BeingWritten(st.pool, p) ==>
      ReadPage(st.pool.disk, p) == Content(st.pool, p)
  }

  ghost predicate Good(st: State) {
    && Valid(st.pool)
    && WritesOnTarget(st.pool)
    && (forall p :: p in st.owed ==> p in st.pool.table && PinCount(st.pool, p) > 0)
    && (forall p :: CleanMatches(st, p))
  }

  // ---------------------------------------------------------------- the plain store

  /** The reference: a map of pages, zero where nothing was stored. */
  type Store = map<PageId, PageData>

  function Lookup(store: Store, p: PageId): PageData {
    if p in store then store[p] else ZeroPage()
  }

  /** Only a client's write changes the reference. */
  function StoreStep(store: Store, step: Step): Store {
    if step.Writing? then store[step.pid := step.data] else store
  }

  ghost predicate Agrees(st: State, store: Store)
    requires InRange(st.pool)
  {
    forall p :: Content(st.pool, p) == Lookup(store, p)
  }

  // ---------------------------------------------------------------- one step

  /** A taken frame costs no page its content, and what it held before is on disk. */
  lemma TakeFrameKeepsContent(st: State, schedule: seq<seq<nat>>)
    requires Good(st) && TakeReady(st.pool, schedule) && ReuseSafe(st.pool)
    ensures var (t, got) := TakeFrame(st.pool, schedule);
            && t.frames == st.pool.frames
            && InRange(t)
            && WritesOnTarget(t)
            && (forall p :: Content(t, p) == Content(st.pool, p))
            && (forall p :: p in t.table ==> p in st.pool.table && t.table[p] == st.pool.table[p])
            && (forall p :: p in st.owed ==> p in t.table)
            && (forall p :: CleanMatches(State(t, st.owed), p))
  {
    var s := st.pool;
    var (t, got) := TakeFrame(s, schedule);
    TakeFrameDetaches(s, schedule);
    if s.free == [] && s.lru != [] {
      var f := Victim(s);
      assert f in s.lru;
      assert Mapped(s, f);
      var v := s.frames[f].pid;
      assert CleanMatches(st, v);
      if s.frames[f].dirty {
        LoneWriteLands(Submit(s.disk, v, f), s.frames, schedule);
      } else {
        assert !BeingWritten(s, v);
      }
      forall p ensures CleanMatches(State(t, st.owed), p) {
        assert CleanMatches(st, p);
        assert p != v ==> (BeingWritten(t, p) <==> BeingWritten(s, p));
      }
    } else {
      forall p ensures CleanMatches(State(t, st.owed), p) {
        assert CleanMatches(st, p);
      }
    }
  }

  lemma InstallKeepsContent(t: Pool, owed: set<PageId>, f: nat, pid: PageId, data: PageData)
    requires Detached(t, f) && pid !in t.table && data == ReadPage(t.disk, pid)
    requires WritesOnTarget(t)
    requires forall p :: p in owed ==> p in t.table && PinCount(t, p) > 0
    requires forall p :: CleanMatches(State(t, owed), p)
    ensures Good(State(Install(t, f, pid, data), owed))
    ensures forall p :: Content(Install(t, f, pid, data), p) == Content(t, p)
  {
    InstallValid(t, f, pid, data);
    var u := Install(t, f, pid, data);
    forall p ensures CleanMatches(State(u, owed), p) {
      assert CleanMatches(State(t, owed), p);
      assert BeingWritten(u, p) <==> BeingWritten(t, p);
    }
  }

  lemma FetchKeepsContent(st: State, pid: PageId, schedule: seq<seq<nat>>)
    requires Good(st) && Enabled(st, Fetching(pid, schedule))
    ensures var (t, got) := Fetch(st.pool, pid, schedule);
            && Good(State(t, st.owed))
            && (forall p :: Content(t, p) == Content(st.pool, p))
            && (got.Some? ==> got.value < |t.frames| && t.frames[got.value].data == Content(st.pool, pid))
  {
    var s := st.pool;
    FetchValid(s, pid, schedule);
    var (t, got) := Fetch(s, pid, schedule);
    if pid in s.table {
      forall p ensures CleanMatches(State(t, st.owed), p) {
        assert CleanMatches(st, p);
        assert BeingWritten(t, p) <==> BeingWritten(s, p);
      }
    } else if got.Some? {
      TakeFrameKeepsContent(st, schedule);
      TakeFrameDetaches(s, schedule);
      var u := TakeFrame(s, schedule).0;
      InstallKeepsContent(u, st.owed, got.value, pid, ReadPage(u.disk, pid));
    }
  }

  lemma NewKeepsContent(st: State, schedule: seq<seq<nat>>)
    requires Good(st) && Enabled(st, Creating(schedule))
    ensures var (t, got) := New(st.pool, schedule);
            && Good(State(t, st.owed))
            && (forall p :: Content(t, p) == Content(st.pool, p))
  {
    var s := st.pool;
    NewValid(s, schedule);
    TakeFrameKeepsContent(st, schedule);
    TakeFrameDetaches(s, schedule);
    TakeFrameDisk(s, schedule);
    var (u, got) := TakeFrame(s, schedule);
    if got.Some? {
      FreshIdLeaves(s, schedule);
      var pid := u.disk.nextPageId;
      assert Content(u, pid) == Content(s, pid) == ZeroPage();
      var a := u.(disk := AllocatePage(u.disk));
      forall g: nat | g < |u.frames| ensures Mapped(a, g) <==> Mapped(u, g) {}
      AllocateKeepsContent(u, st.owed);
      InstallKeepsContent(a, st.owed, got.value, pid, ZeroPage());
    }
  }

  lemma AllocateKeepsContent(s: Pool, owed: set<PageId>)
    requires InRange(s)
    ensures var t := s.(disk := AllocatePage(s.disk));
            && (forall p :: Content(t, p) == Content(s, p))
            && (forall p :: CleanMatches(State(s, owed), p) ==> CleanMatches(State(t, owed), p))
  {
    var t := s.(disk := AllocatePage(s.disk));
    forall p | CleanMatches(State(s, owed), p) ensures CleanMatches(State(t, owed), p) {
      assert BeingWritten(t, p) <==> BeingWritten(s, p);
    }
  }

  /** The condition on the new id is exact, resident or not: the new page hides whatever was
      stored under it. */
  lemma NewContentExact(st: State, schedule: seq<seq<nat>>)
    requires Good(st) && TakeReady(st.pool, schedule) && ReuseSafe(st.pool) && New(st.pool, schedule).1.Some?
    ensures InRange(New(st.pool, schedule).0)
    ensures (forall p :: Content(New(st.pool, schedule).0, p) == Content(st.pool, p)) <==>
            Content(st.pool, st.pool.disk.nextPageId) == ZeroPage()
  {
    var s := st.pool;
    TakeFrameKeepsContent(st, schedule);
    TakeFrameDetaches(s, schedule);
    TakeFrameDisk(s, schedule);
    var (u, got) := TakeFrame(s, schedule);
    AllocateKeepsContent(u, st.owed);
    InstallShows(u.(disk := AllocatePage(u.disk)), got.value, s.disk.nextPageId, ZeroPage());
  }

  /** An installed page shows its bytes and hides nothing else. */
  lemma InstallShows(s: Pool, f: nat, pid: PageId, data: PageData)
    requires InRange(s) && f < |s.frames| && forall p :: p in s.table ==> s.table[p] != f
    ensures InRange(Install(s, f, pid, data))
    ensures forall p :: Content(Install(s, f, pid, data), p) == if p == pid then data else Content(s, p)
  {}

  lemma LandKeepsContent(st: State, i: nat)
    requires Good(st) && CanLand(st.pool.disk, st.pool.frames, i)
    ensures Good(st.(pool := st.pool.(disk := Land(st.pool.disk, st.pool.frames, i))))
    ensures forall p :: Content(st.pool.(disk := Land(st.pool.disk, st.pool.frames, i)), p) == Content(st.pool, p)
  {
    var s := st.pool;
    var t := s.(disk := Land(s.disk, s.frames, i));
    var w := s.disk.inflight[i];
    assert w in s.disk.inflight;
    forall g: nat | g < |t.frames| ensures Mapped(t, g) <==> Mapped(s, g) {}
    forall x | x in t.disk.inflight ensures x in s.disk.inflight {}
    forall p ensures CleanMatches(State(t, st.owed), p) {
      assert CleanMatches(st, p);
      if p != w.pid && BeingWritten(s, p) {
        var x :| x in s.disk.inflight && x.pid == p;
        var j :| 0 <= j < |s.disk.inflight| && s.disk.inflight[j] == x;
        assert x == t.disk.inflight[if j < i then j else j - 1];
      }
    }
  }

  lemma {:induction false} PollKeepsContent(st: State, order: seq<nat>)
    requires Good(st) && CanLandAll(st.pool.disk, st.pool.frames, order)
    ensures Good(st.(pool := st.pool.(disk := LandAll(st.pool.disk, st.pool.frames, order))))
    ensures forall p :: Content(st.pool.(disk := LandAll(st.pool.disk, st.pool.frames, order)), p) == Content(st.pool, p)
    decreases order
  {
    var s := st.pool;
    if order == [] {
      assert s.(disk := s.disk) == s;
      assert st.(pool := s) == st;
    } else {
      LandKeepsContent(st, order[0]);
      var t := s.(disk := Land(s.disk, s.frames, order[0]));
      PollKeepsContent(st.(pool := t), order[1..]);
      assert t.(disk := LandAll(t.disk, t.frames, order[1..])) == s.(disk := LandAll(s.disk, s.frames, order));
    }
  }

  lemma ReapKeepsGood(st: State)
    requires Good(st)
    ensures Good(st.(pool := st.pool.(disk := st.pool.disk.(done := 0))))
    ensures forall p :: Content(st.pool.(disk := st.pool.disk.(done := 0)), p) == Content(st.pool, p)
  {
    var s := st.pool;
    var t := s.(disk := s.disk.(done := 0));
    forall g: nat | g < |t.frames| ensures Mapped(t, g) <==> Mapped(s, g) {}
    forall p ensures CleanMatches(State(t, st.owed), p) {
      assert CleanMatches(st, p);
      assert BeingWritten(t, p) <==> BeingWritten(s, p);
    }
  }

  lemma PollStepKeepsContent(st: State, order: seq<nat>)
    requires Good(st) && Enabled(st, Polling(order))
    ensures Good(Next(st, Polling(order)))
    ensures forall p :: Content(Next(st, Polling(order)).pool, p) == Content(st.pool, p)
  {
    PollKeepsContent(st, order);
    var s := st.pool;
    var landed := st.(pool := s.(disk := LandAll(s.disk, s.frames, order)));
    ReapKeepsGood(landed);
    assert Next(st, Polling(order)) == landed.(pool := landed.pool.(disk := landed.pool.disk.(done := 0)));
  }

  lemma FlushKeepsContent(st: State, pid: PageId)
    requires Good(st)
    ensures Good(st.(pool := Flush(st.pool, pid)))
    ensures forall p :: Content(Flush(st.pool, pid), p) == Content(st.pool, p)
  {
    var s := st.pool;
    var t := Flush(s, pid);
    if t != s {
      var f := s.table[pid];
      FrameDataValid(s, f, s.frames[f].data, false, Submit(s.disk, pid, f));
      assert t == s.(frames := s.frames[f := s.frames[f].(data := s.frames[f].data, dirty := false)],
                     disk := Submit(s.disk, pid, f));
      assert Write(pid, f) in t.disk.inflight;
      forall p ensures CleanMatches(State(t, st.owed), p) {
        assert CleanMatches(st, p);
        assert p != pid ==> (BeingWritten(t, p) <==> BeingWritten(s, p));
      }
    }
  }

  lemma UnpinKeepsContent(st: State, pid: PageId, dirty: bool)
    requires Good(st) && Enabled(st, Unpinning(pid, dirty))
    ensures Good(Next(st, Unpinning(pid, dirty)))
    ensures forall p :: Content(Unpin(st.pool, pid, dirty), p) == Content(st.pool, p)
  {
    var t := Next(st, Unpinning(pid, dirty));
    UnpinValid(st.pool, pid, dirty);
    forall p ensures CleanMatches(t, p) {
      assert CleanMatches(st, p);
      assert BeingWritten(t.pool, p) <==> BeingWritten(st.pool, p);
    }
  }

  lemma WriteUpdatesContent(st: State, pid: PageId, data: PageData, mark: bool)
    requires Good(st) && Enabled(st, Writing(pid, data, mark))
    ensures Good(Next(st, Writing(pid, data, mark)))
    ensures forall p :: Content(ClientWrite(st.pool, pid, data, mark), p) ==
                        if p == pid then data else Content(st.pool, p)
  {
    var s := st.pool;
    var t := Next(st, Writing(pid, data, mark));
    var f := s.table[pid];
    WriteValid(s, pid, data, mark);
    forall p ensures CleanMatches(t, p) {
      assert CleanMatches(st, p);
      assert BeingWritten(t.pool, p) <==> BeingWritten(s, p);
    }
  }

  /** Cache transparency, one step: the invariant is kept and the pool follows the store. */
  lemma StepRefinesStore(st: State, store: Store, step: Step)
    requires Good(st) && Enabled(st, step) && Agrees(st, store)
    ensures Good(Next(st, step)) && Agrees(Next(st, step), StoreStep(store, step))
  {
    match step
    case Fetching(pid, schedule) => FetchKeepsContent(st, pid, schedule);
    case Creating(schedule) => NewKeepsContent(st, schedule);
    case Unpinning(pid, dirty) => UnpinKeepsContent(st, pid, dirty);
    case Flushing(pid) => FlushKeepsContent(st, pid);
    case Writing(pid, data, mark) => WriteUpdatesContent(st, pid, data, mark);
    case Landing(i) => LandKeepsContent(st, i);
    case Polling(order) => PollStepKeepsContent(st, order);
  }

  // ---------------------------------------------------------------- whole runs

  ghost predicate IsRun(st: State, steps: seq<Step>)
    decreases steps
  {
    steps == [] || (Enabled(st, steps[0]) && IsRun(Next(st, steps[0]), steps[1..]))
  }

  ghost function Run(st: State, steps: seq<Step>): State
    requires IsRun(st, steps)
    decreases steps
  {
    if steps == [] then st else Run(Next(st, steps[0]), steps[1..])
  }

  function StoreRun(store: Store, steps: seq<Step>): Store
    decreases steps
  {
    if steps == [] then store else StoreRun(StoreStep(store, steps[0]), steps[1..])
  }

  /** Cache transparency over every run. */
  lemma {:induction false} RunRefinesStore(st: State, store: Store, steps: seq<Step>)
    requires Good(st) && Agrees(st, store) && IsRun(st, steps)
    ensures Good(Run(st, steps)) && Agrees(Run(st, steps), StoreRun(store, steps))
    decreases steps
  {
    if steps == [] {
    } else {
      StepRefinesStore(st, store, steps[0]);
      RunRefinesStore(Next(st, steps[0]), StoreStep(store, steps[0]), steps[1..]);
    }
  }

  lemma FreshGood(n: nat, disk: Disk)
    requires disk.inflight == []
    ensures Good(State(Fresh(n, disk), {})) && Agrees(State(Fresh(n, disk), {}), disk.file)
  {
    FreshValid(n, disk);
  }

  /** From an empty pool over any file, after any run, a fetch hands out exactly the bytes
      the plain store holds for that page. */
  lemma FetchReadsStore(n: nat, disk: Disk, steps: seq<Step>, pid: PageId, schedule: seq<seq<nat>>)
    requires disk.inflight == [] && IsRun(State(Fresh(n, disk), {}), steps)
    requires Enabled(Run(State(Fresh(n, disk), {}), steps), Fetching(pid, schedule))
    ensures var (t, got) := Fetch(Run(State(Fresh(n, disk), {}), steps).pool, pid, schedule);
            got.Some? ==> got.value < |t.frames| && t.frames[got.value].data == Lookup(StoreRun(disk.file, steps), pid)
  {
    FreshGood(n, disk);
    RunRefinesStore(State(Fresh(n, disk), {}), disk.file, steps);
    FetchKeepsContent(Run(State(Fresh(n, disk), {}), steps), pid, schedule);
  }

  // ---------------------------------------------------------------- frame reuse

  /** No schedule of the device leaves a write aimed at the reused frame in flight. */
  ghost predicate ReuseNeverRaces(s: Pool) {
    forall schedule :: TakeReady(s, schedule) && TakeFrame(s, schedule).1.Some? ==>
      forall w :: w in TakeFrame(s, schedule).0.disk.inflight ==> w.frame != TakeFrame(s, schedule).1.value
  }

  /** The device can always end the wait, so the schedules in question exist. */
  lemma WaitCanEnd(s: Pool)
    requires Valid(s) && WritesInUse(s)
    ensures exists schedule :: TakeReady(s, schedule)
  {
    if Evicts(s) && s.frames[Victim(s)].dirty {
      var d := Submit(s.disk, s.frames[Victim(s)].pid, Victim(s));
      var order: seq<nat> := [|s.disk.inflight|];
      assert order[1..] == [] && CanLandAll(d, s.frames, order);
      assert LandAll(d, s.frames, order) == Land(d, s.frames, |s.disk.inflight|);
      assert WaitEnds(d, s.frames, [order]);
      assert TakeReady(s, [order]);
    } else {
      assert TakeReady(s, []);
    }
  }

  /** Asynchronous eviction: reuse is free of races under every schedule exactly when
      ReuseSafe holds before the call. In particular it holds when nothing is outstanding,
      and a single forgotten flush breaks it, because the wait accepts any completion. */
  lemma ReuseExact(s: Pool)
    requires Valid(s) && WritesInUse(s)
    ensures ReuseNeverRaces(s) <==> ReuseSafe(s)
  {
    if ReuseSafe(s) {
      forall schedule | TakeReady(s, schedule) && TakeFrame(s, schedule).1.Some?
        ensures forall w :: w in TakeFrame(s, schedule).0.disk.inflight ==> w.frame != TakeFrame(s, schedule).1.value
      {
        SafeReuseNeverRaces(s, schedule);
      }
    } else {
      var f := Victim(s);
      assert f in s.lru;
      if s.frames[f].dirty {
        var d := Submit(s.disk, s.frames[f].pid, f);
        var order: seq<nat> := if s.disk.done > 0 then [] else [0];
        if s.disk.done == 0 { assert d.inflight[0] in s.disk.inflight; }
        assert order != [] ==> order[1..] == [];
        assert CanLandAll(d, s.frames, order);
        var last := Write(s.frames[f].pid, f);
        assert d.inflight[|d.inflight| - 1] == last;
        var r := LandAll(d, s.frames, order);
        if order != [] { assert r == LandAll(Land(d, s.frames, 0), s.frames, []); }
        assert r == if order == [] then d else Land(d, s.frames, 0);
        assert r.inflight[|r.inflight| - 1] == last;
        var schedule := [order];
        assert schedule[0] == order;
        assert Wait(d, s.frames, schedule) == Retrieve(d, s.frames, order);
        assert TakeReady(s, schedule);
        assert last in TakeFrame(s, schedule).0.disk.inflight;
      } else {
        assert TakeReady(s, []);
        assert TakeFrame(s, []).0.disk == s.disk;
      }
    }
  }

  lemma SafeReuseNeverRaces(s: Pool, schedule: seq<seq<nat>>)
    requires Valid(s) && WritesInUse(s) && ReuseSafe(s)
    requires TakeReady(s, schedule) && TakeFrame(s, schedule).1.Some?
    ensures forall w :: w in TakeFrame(s, schedule).0.disk.inflight ==> w.frame != TakeFrame(s, schedule).1.value
  {
    if s.free != [] {
      assert s.free[0] in s.free;
    } else if s.frames[Victim(s)].dirty {
      LoneWriteLands(Submit(s.disk, s.frames[Victim(s)].pid, Victim(s)), s.frames, schedule);
    }
  }

  /** With nothing outstanding when a miss starts, the wait leaves nothing in flight and the
      victim's exact bytes are on disk before its frame is reset. */
  lemma EvictionIsDurable(s: Pool, schedule: seq<seq<nat>>)
    requires Valid(s) && Evicts(s) && TakeReady(s, schedule)
    requires s.disk.inflight == [] && s.disk.done == 0
    ensures var t := TakeFrame(s, schedule).0;
            && t.disk.inflight == [] && t.disk.done == 0
            && (s.frames[Victim(s)].dirty ==>
                  ReadPage(t.disk, s.frames[Victim(s)].pid) == s.frames[Victim(s)].data)
  {
    if s.frames[Victim(s)].dirty {
      LoneWriteLands(Submit(s.disk, s.frames[Victim(s)].pid, Victim(s)), s.frames, schedule);
    }
  }

  /** Ids restart at 0 over an old file, so the first new page hides the page that was there. */
  lemma NewPageHidesOld(data: PageData)
    ensures var s := Fresh(1, Disk(map[0 := data], [], 0, 0));
            && InRange(s) && Content(s, 0) == data
            && InRange(New(s, []).0) && Content(New(s, []).0, 0) == ZeroPage()
  {}

  /** If that page is resident, NewPage maps a second frame to it. */
  lemma NewPageDoublesResident()
    ensures var s := Fetch(Fresh(2, Disk(map[], [], 0, 0)), 0, []).0;
            Valid(s) && New(s, []).1.Some? && !Valid(New(s, []).0)
  {
    FreshValid(2, Disk(map[], [], 0, 0));
    FetchValid(Fresh(2, Disk(map[], [], 0, 0)), 0, []);
    var s := Fetch(Fresh(2, Disk(map[], [], 0, 0)), 0, []).0;
    assert s.free == [1];
    NewExact(s, []);
  }

  /** A pool of one frame after a client has fetched page 0, written it and unpinned it. */
  function OneWrite(data: PageData, dirty: bool): Pool {
    Unpin(ClientWrite(Fetch(Fresh(1, Disk(map[], [], 0, 2)), 0, []).0, 0, data, false), 0, dirty)
  }

  lemma OneWriteIs(data: PageData, dirty: bool)
    ensures OneWrite(data, dirty) == Pool([Frame(data, 0, 0, dirty)], map[0 := 0], [0], [], Disk(map[], [], 0, 2))
  {
    var s := Fetch(Fresh(1, Disk(map[], [], 0, 2)), 0, []).0;
    assert s == Pool([Frame(ZeroPage(), 0, 1, false)], map[0 := 0], [], [], Disk(map[], [], 0, 2));
  }

  /** Why the condition matters: a page written, unpinned dirty and flushed is lost when its
      frame is taken before the write lands. */
  function ForgottenFlush(data: PageData): Pool {
    OneWriteIs(data, true);
    var s := Fetch(Flush(OneWrite(data, true), 0), 1, []).0;
    s.(disk := Land(s.disk, s.frames, 0))
  }

  lemma ForgottenFlushLosesPage(data: PageData)
    ensures InRange(ForgottenFlush(data)) && Content(ForgottenFlush(data), 0) == ZeroPage()
  {
    OneWriteIs(data, true);
    var s := Flush(OneWrite(data, true), 0);
    assert s == Pool([Frame(data, 0, 0, false)], map[0 := 0], [0], [], Disk(map[], [Write(0, 0)], 0, 2));
    assert Fetch(s, 1, []).0 ==
           Pool([Frame(ZeroPage(), 1, 1, false)], map[1 := 0], [], [], Disk(map[], [Write(0, 0)], 0, 2));
  }

  /** Nor may a writer be the last to unpin its page as clean: the bytes go with the frame. */
  lemma CleanUnpinLosesWrite(data: PageData)
    ensures InRange(OneWrite(data, false)) && Content(OneWrite(data, false), 0) == data
    ensures var s := Fetch(OneWrite(data, false), 1, []).0; InRange(s) && Content(s, 0) == ZeroPage()
  {
    OneWriteIs(data, false);
    assert Fetch(OneWrite(data, false), 1, []).0.table == map[1 := 0];
  }

  // ---------------------------------------------------------------- durability

  lemma {:induction false} FlushEachCleans(st: State, pids: seq<PageId>)
    requires Good(st)
    ensures var t := FlushEach(st.pool, pids);
            && Good(st.(pool := t)) && t.table == st.pool.table
            && (forall p :: Content(t, p) == Content(st.pool, p))
            && (forall p :: p in t.table && (p in pids || !st.pool.frames[st.pool.table[p]].dirty)
                  ==> !t.frames[t.table[p]].dirty)
    decreases pids
  {
    if pids != [] {
      FlushKeepsContent(st, pids[0]);
      var u := Flush(st.pool, pids[0]);
      forall p | p in u.table && (p == pids[0] || !st.pool.frames[st.pool.table[p]].dirty)
        ensures !u.frames[u.table[p]].dirty
      {}
      FlushEachCleans(st.(pool := u), pids[1..]);
    } else {
      assert st.(pool := st.pool) == st;
    }
  }

  /** Flush every page and let the device finish: a new pool over the file then holds
      everything the old pool held. */
  lemma FlushAllSurvivesRestart(st: State, pids: seq<PageId>, order: seq<nat>, n: nat, p: PageId)
    requires Good(st) && st.owed == {}
    requires forall q :: q in st.pool.table ==> q in pids
    requires var t := FlushEach(st.pool, pids);
             CanLandAll(t.disk, t.frames, order) && |order| == |t.disk.inflight|
    ensures var t := FlushEach(st.pool, pids);
            Content(Fresh(n, Retrieve(t.disk, t.frames, order)), p) == Content(st.pool, p)
  {
    FlushEachCleans(st, pids);
    var t := FlushEach(st.pool, pids);
    var flushed := st.(pool := t);
    PollKeepsContent(flushed, order);
    LandAllCounts(t.disk, t.frames, order);
    var landed := t.(disk := LandAll(t.disk, t.frames, order));
    assert CleanMatches(st.(pool := landed), p);
    assert !BeingWritten(landed, p);
    assert Content(landed, p) == ReadPage(landed.disk, p);
  }

  lemma {:induction false} FlushEachKeepsFile(s: Pool, pids: seq<PageId>)
    requires InRange(s)
    ensures FlushEach(s, pids).disk.file == s.disk.file
    decreases pids
  {
    if pids == [] {
    } else {
      FlushEachKeepsFile(Flush(s, pids[0]), pids[1..]);
    }
  }

  /** A page whose content is on disk stays so whatever lands. */
  lemma {:induction false} LandAllKeepsDurable(st: State, order: seq<nat>, p: PageId)
    requires Good(st) && CanLandAll(st.pool.disk, st.pool.frames, order)
    requires ReadPage(st.pool.disk, p) == Content(st.pool, p)
    ensures ReadPage(LandAll(st.pool.disk, st.pool.frames, order), p) == Content(st.pool, p)
    decreases order
  {
    if order == [] {
    } else {
      var s := st.pool;
      assert s.disk.inflight[order[0]] in s.disk.inflight;
      LandKeepsContent(st, order[0]);
      LandAllKeepsDurable(st.(pool := s.(disk := Land(s.disk, s.frames, order[0]))), order[1..], p);
    }
  }

  /** FlushAllPages polls once, so what it makes durable is up to the device: a page is on
      disk after the call under every behaviour of the device exactly if its content was on
      disk before the call. */
  lemma FlushAllExact(st: State, pids: seq<PageId>, p: PageId)
    requires Good(st)
    ensures var t := FlushEach(st.pool, pids);
            (forall order :: CanLandAll(t.disk, t.frames, order) ==>
               ReadPage(Retrieve(t.disk, t.frames, order), p) == Content(st.pool, p))
            <==> ReadPage(st.pool.disk, p) == Content(st.pool, p)
  {
    var t := FlushEach(st.pool, pids);
    FlushEachKeepsFile(st.pool, pids);
    FlushEachCleans(st, pids);
    assert CanLandAll(t.disk, t.frames, []) && Retrieve(t.disk, t.frames, []).file == t.disk.file;
    if ReadPage(st.pool.disk, p) == Content(st.pool, p) {
      forall order | CanLandAll(t.disk, t.frames, order)
        ensures ReadPage(Retrieve(t.disk, t.frames, order), p) == Content(st.pool, p)
      {
        LandAllKeepsDurable(st.(pool := t), order, p);
      }
    }
  }

  /** So a full flush of one dirty page can leave a new pool over the file reading zeros. */
  lemma FlushAllLosesPage(data: PageData)
    ensures InRange(OneWrite(data, true)) && Content(OneWrite(data, true), 0) == data
    ensures var t := FlushEach(OneWrite(data, true), [0]);
            && t.disk.inflight == [Write(0, 0)] && CanLandAll(t.disk, t.frames, [])
            && Content(Fresh(1, Retrieve(t.disk, t.frames, [])), 0) == ZeroPage()
  {
    OneWriteIs(data, true);
    FlushEachKeepsFile(OneWrite(data, true), [0]);
    assert FlushEach(OneWrite(data, true), [0]) == FlushEach(Flush(OneWrite(data, true), 0), []);
  }
}
