/**
 The ids that NewPage hands out over a run: consecutive, different from one another, and
 therefore fresh in a database that starts from an empty file.
 */
module PageIds {
  import opened Config
  import opened Disk
  import opened BufferPool
  import opened PoolRuns

  const ID_RANGE: nat := 0x1_0000_0000

  /** The step is a NewPage that gets a frame. */
  ghost predicate Creates(s: Pool, step: Step)
    requires Defined(s, step)
  {
    step.Creating? && New(s, step.schedule).1.Some?
  }

  /** The page id of the frame that a NewPage returns. */
  ghost function NewId(s: Pool, step: Step): PageId
    requires Valid(s) && Defined(s, step) && Creates(s, step)
  {
    NewIsClean(s, step.schedule);
    New(s, step.schedule).0.frames[New(s, step.schedule).1.value].pid
  }

  /** A NewPage hands out the counter and moves it on by one; nothing else touches it. */
  lemma StepCounts(s: Pool, step: Step)
    requires Valid(s) && Defined(s, step)
    ensures NextPool(s, step).disk.nextPageId ==
            if Creates(s, step) then (s.disk.nextPageId + 1) % ID_RANGE else s.disk.nextPageId
    ensures Creates(s, step) ==> NewId(s, step) == s.disk.nextPageId
  {
    match step
    case Fetching(pid, schedule) => if pid !in s.table { TakeFrameDisk(s, schedule); }
    case Creating(schedule) =>
      TakeFrameDisk(s, schedule);
      if Creates(s, step) { NewIsClean(s, schedule); }
    case Polling(order) => LandAllKeepsCounter(s.disk, s.frames, order);
    case _ =>
  }

  /** The ids handed out over a run, in order. */
  ghost function Ids(s: Pool, steps: seq<Step>): seq<PageId>
    requires Valid(s) && WritesInUse(s) && IsLegalRun(s, steps)
    decreases steps
  {
    if steps == [] then []
    else
      StepPartitioned(s, steps[0]);
      (if Creates(s, steps[0]) then [NewId(s, steps[0])] else []) + Ids(NextPool(s, steps[0]), steps[1..])
  }

  /** The counter read n times. */
  function Counted(c: PageId, n: nat): (ids: seq<PageId>)
    ensures |ids| == n
    decreases n
  {
    if n == 0 then [] else [c] + Counted((c + 1) % ID_RANGE, n - 1)
  }

  lemma NextRemainder(c: PageId, d: nat, i: nat)
    requires d == (c + 1) % ID_RANGE
    ensures (d + i) % ID_RANGE == (c + (i + 1)) % ID_RANGE
  {
    assert d == c + 1 || d + ID_RANGE == c + 1;
  }

  lemma {:induction false} CountedAt(c: PageId, n: nat, j: nat)
    requires j < n
    ensures Counted(c, n)[j] == (c + j) % ID_RANGE
    decreases n
  {
    if j == 0 {
    } else {
      var d := (c + 1) % ID_RANGE;
      CountedAt(d, n - 1, j - 1);
      assert Counted(c, n)[j] == Counted(d, n - 1)[j - 1];
      NextRemainder(c, d, j - 1);
    }
  }

  lemma {:induction false} IdsAreCounted(s: Pool, steps: seq<Step>)
    requires Valid(s) && WritesInUse(s) && IsLegalRun(s, steps)
    ensures Ids(s, steps) == Counted(s.disk.nextPageId, |Ids(s, steps)|)
    decreases steps
  {
    if steps == [] {
    } else {
      IdsHead(s, steps);
      IdsAreCounted(NextPool(s, steps[0]), steps[1..]);
    }
  }

  /** The j-th new page of a run from counter c gets the id (c + j) mod 2^32. */
  lemma IdsAreConsecutive(s: Pool, steps: seq<Step>, j: nat)
    requires Valid(s) && WritesInUse(s) && IsLegalRun(s, steps) && j < |Ids(s, steps)|
    ensures Ids(s, steps)[j] == (s.disk.nextPageId + j) % ID_RANGE
  {
    IdsAreCounted(s, steps);
    CountedAt(s.disk.nextPageId, |Ids(s, steps)|, j);
  }

  lemma IdsHead(s: Pool, steps: seq<Step>)
    requires Valid(s) && WritesInUse(s) && IsLegalRun(s, steps) && steps != []
    ensures var t, c := NextPool(s, steps[0]), s.disk.nextPageId;
            && Valid(t) && WritesInUse(t)
            && if Creates(s, steps[0])
               then t.disk.nextPageId == (c + 1) % ID_RANGE && Ids(s, steps) == [c] + Ids(t, steps[1..])
               else t.disk.nextPageId == c && Ids(s, steps) == Ids(t, steps[1..])
  {
    StepPartitioned(s, steps[0]);
    StepCounts(s, steps[0]);
  }

  lemma ModDiffers(c: nat, i: nat, j: nat)
    requires i < j < i + ID_RANGE
    ensures (c + i) % ID_RANGE != (c + j) % ID_RANGE
  {}

  /** So no id is handed out twice before all 2^32 have been. */
  lemma IdsAreDistinct(s: Pool, steps: seq<Step>, i: nat, j: nat)
    requires Valid(s) && WritesInUse(s) && IsLegalRun(s, steps)
    requires i < j < |Ids(s, steps)| <= ID_RANGE
    ensures Ids(s, steps)[i] != Ids(s, steps)[j]
  {
    IdsAreConsecutive(s, steps, i);
    IdsAreConsecutive(s, steps, j);
    ModDiffers(s.disk.nextPageId, i, j);
  }

  // ---------------------------------------------------------------- a database from an empty file

  /** What is left to respect when ids are taken as they come, with `count` handed out so far:
      only these are fetched, frames are reused safely, writers unpin dirty, and the id range
      is not used up. Nothing is asked about the id of a new page. */
  ghost predicate Modest(st: State, count: nat, step: Step) {
    var s := st.pool;
    && Valid(s) && Defined(s, step)
    && match step
       case Fetching(pid, schedule) => pid < count && (pid in s.table || ReuseSafe(s))
       case Creating(schedule) => ReuseSafe(s) && (Creates(s, step) ==> count < ID_RANGE)
       case Unpinning(pid, dirty) => pid in st.owed && !dirty ==> PinCount(s, pid) > 1
       case _ => true
  }

  ghost predicate IsModestRun(st: State, count: nat, steps: seq<Step>)
    decreases steps
  {
    steps == [] ||
    (Modest(st, count, steps[0]) &&
     IsModestRun(Proceed(st, steps[0]), count + (if Creates(st.pool, steps[0]) then 1 else 0), steps[1..]))
  }

  /** Ids from count on are unused: not resident, and nothing is stored under them. */
  ghost predicate Unused(st: State, count: nat)
    requires InRange(st.pool)
  {
    && count <= ID_RANGE && st.pool.disk.nextPageId == count % ID_RANGE
    && (forall p :: p in st.pool.table ==> p < count)
    && (forall p: PageId :: p >= count ==> Content(st.pool, p) == ZeroPage())
  }

  lemma StepKeepsOthers(st: State, step: Step, p: PageId)
    requires Good(st) && Enabled(st, step) && !(step.Writing? && step.pid == p)
    ensures Good(Next(st, step)) && Content(Next(st, step).pool, p) == Content(st.pool, p)
  {
    match step
    case Fetching(pid, schedule) => FetchKeepsContent(st, pid, schedule);
    case Creating(schedule) => NewKeepsContent(st, schedule);
    case Unpinning(pid, dirty) => UnpinKeepsContent(st, pid, dirty);
    case Flushing(pid) => FlushKeepsContent(st, pid);
    case Writing(pid, data, mark) => WriteUpdatesContent(st, pid, data, mark);
    case Landing(i) => LandKeepsContent(st, i);
    case Polling(order) => PollStepKeepsContent(st, order);
  }

  lemma StepTable(s: Pool, step: Step, p: PageId)
    requires Valid(s) && Defined(s, step) && p in NextPool(s, step).table
    ensures p in s.table || (step.Fetching? && p == step.pid) || (Creates(s, step) && p == s.disk.nextPageId)
  {
    if step.Creating? { TakeFrameDisk(s, step.schedule); }
  }

  /** A modest step respects everything that PoolRuns asks of callers. */
  lemma ModestStep(st: State, count: nat, step: Step)
    requires Good(st) && Unused(st, count) && Modest(st, count, step)
    ensures Enabled(st, step) && Good(Next(st, step))
    ensures Unused(Next(st, step), count + if Creates(st.pool, step) then 1 else 0)
  {
    var s, t := st.pool, NextPool(st.pool, step);
    var count' := count + if Creates(s, step) then 1 else 0;
    StepCounts(s, step);
    ModestEnabled(st, count, step);
    StepKeepsGood(st, step);
    forall p | p in t.table ensures p < count' { StepTable(s, step, p); }
    forall p: PageId | p >= count' ensures Content(t, p) == ZeroPage() { StepKeepsOthers(st, step, p); }
  }

  lemma ModestEnabled(st: State, count: nat, step: Step)
    requires Good(st) && Unused(st, count) && Modest(st, count, step)
    ensures Enabled(st, step) && (Creates(st.pool, step) ==> st.pool.disk.nextPageId == count)
  {}

  lemma StepKeepsGood(st: State, step: Step)
    requires Good(st) && Enabled(st, step)
    ensures Good(Next(st, step))
  {
    if step.Writing? { WriteUpdatesContent(st, step.pid, step.data, step.mark); }
    else { StepKeepsOthers(st, step, 0); }
  }

  lemma {:induction false} ModestRun(st: State, count: nat, steps: seq<Step>)
    requires Good(st) && Unused(st, count) && IsModestRun(st, count, steps)
    ensures IsRun(st, steps)
    decreases steps
  {
    if steps == [] {
    } else {
      ModestStep(st, count, steps[0]);
      ModestRun(Next(st, steps[0]), count + (if Creates(st.pool, steps[0]) then 1 else 0), steps[1..]);
    }
  }

  /** Over an empty file, in every run that fetches only ids already handed out, the id of a
      new page is never resident and nothing is stored under it: the run is one of PoolRuns,
      so the pool behaves as a plain store. */
  lemma EmptyFileRun(n: nat, steps: seq<Step>)
    requires IsModestRun(State(Fresh(n, Disk(map[], [], 0, 0)), {}), 0, steps)
    ensures var st := State(Fresh(n, Disk(map[], [], 0, 0)), {});
            IsRun(st, steps) && Good(Run(st, steps)) && Agrees(Run(st, steps), StoreRun(map[], steps))
  {
    var st := State(Fresh(n, Disk(map[], [], 0, 0)), {});
    FreshGood(n, Disk(map[], [], 0, 0));
    ModestRun(st, 0, steps);
    RunRefinesStore(st, map[], steps);
  }
}
