/**
 INSERT and SELECT end to end: the insert executor and the scan executor over the slotted
 page, over the buffer pool, over the asynchronous disk, with other traffic in between.
 */
module EndToEnd {
  import opened Config
  import opened Disk
  import opened BufferPool
  import opened PoolRuns
  import opened Log
  import LC = LsnChain
  import C = Chains
  import R = Runs
  import SP = SlottedPage

  /** The pool with its clients, the first page of the table, and the log. */
  datatype Db = Db(st: State, first: PageId, log: seq<LogRecord>)

  function Empty(n: nat, disk: Disk): Db { Db(State(Fresh(n, disk), {}), INVALID_PAGE_ID, []) }

  function Zeros(k: nat): seq<Byte> { seq(k, i => 0) }

  /** The executor stores a placeholder of zero bytes, as long as the schema says. */
  function TableRows(k: nat, c: nat): seq<SP.Row> { seq(c, i => SP.Row(Zeros(k), true)) }

  /** How many tuples of length k fit one page: header 12, four bytes per slot. */
  function Capacity(k: nat): nat { 8180 / (k + 4) }

  ghost predicate PageHolds(page: PageData, k: nat, c: nat) {
    SP.Represents(page, TableRows(k, c), SP.LSN(page))
  }

  // ---------------------------------------------------------------- filling a page

  lemma {:induction false} TableUses(k: nat, c: nat, i: nat)
    requires i <= c
    ensures SP.UsedTo(TableRows(k, c), i) == i * k
  {
    if i == 0 {
    } else {
      TableUses(k, c, i - 1);
      assert i * k == (i - 1) * k + k;
    }
  }

  lemma MulMonotone(a: nat, b: nat, w: nat)
    requires a <= b
    ensures a * w <= b * w
  {}

  lemma DivExact(x: nat, n: nat, w: nat)
    requires w > 0
    ensures n * w <= x <==> n <= x / w
  {
    var q := x / w;
    assert x == q * w + x % w;
    if n <= q { MulMonotone(n, q, w); }
    else {
      MulMonotone(q + 1, n, w);
      assert (q + 1) * w == q * w + w;
    }
  }

  lemma CapacityExact(k: nat, c: nat)
    ensures 12 + 4 * (c + 1) + c * k + k <= 8192 <==> c + 1 <= Capacity(k)
  {
    assert (c + 1) * (k + 4) == 4 * (c + 1) + c * k + k;
    DivExact(8180, c + 1, k + 4);
  }

  /** The page takes one more row exactly while it holds fewer than its capacity. */
  lemma RowFits(d: LC.Desk, pid: PageId, txn: Option<nat>, k: nat, c: nat)
    requires PageHolds(d.page, k, c) && !(65532 <= k <= 65535) && |d.log| + 1 < LC.MAX_LSN
    ensures var r := LC.InsertRow(d, pid, txn, Zeros(k));
            && (r.Some? <==> c < Capacity(k))
            && (r.Some? ==> PageHolds(r.value.page, k, c + 1) && |r.value.log| <= |d.log| + 1)
  {
    var rows, tuple := TableRows(k, c), Zeros(k);
    SP.InsertRefines(d.page, rows, SP.LSN(d.page), tuple);
    TableUses(k, c, c);
    CapacityExact(k, c);
    var r := SP.InsertTuple(d.page, tuple);
    if r.Inserted? {
      assert rows + [SP.Row(tuple, true)] == TableRows(k, c + 1);
      if txn.Some? { SP.SetLSNRepresents(r.page, TableRows(k, c + 1), SP.LSN(r.page), |d.log| + 1); }
    }
  }

  lemma {:induction false} RepeatCounts<W(!new)>(w: W, row: W -> Option<W>, m: nat, holds: (W, nat) -> bool, c: nat, cap: nat)
    requires holds(w, c) && c <= cap
    requires forall d, n: nat :: holds(d, n) && n < cap ==> row(d).Some? && holds(row(d).value, n + 1)
    requires forall d :: holds(d, cap) ==> row(d).None?
    ensures holds(LC.Repeat(w, row, m), Min(c + m, cap))
    decreases m
  {
    if m > 0 && c < cap { RepeatCounts(row(w).value, row, m - 1, holds, c + 1, cap); }
  }

  /** A batch of m rows fills the page up to its capacity and drops the rest. */
  lemma BatchFills(w: LC.Desk, pid: PageId, txn: Option<nat>, k: nat, c: nat, m: nat)
    requires PageHolds(w.page, k, c) && c <= Capacity(k) && !(65532 <= k <= 65535)
    requires |w.log| + Capacity(k) + 1 < LC.MAX_LSN
    ensures PageHolds(LC.InsertRows(w, pid, txn, Zeros(k), m).page, k, Min(c + m, Capacity(k)))
  {
    var cap := Capacity(k);
    var holds := (d: LC.Desk, n: nat) =>
      n <= cap && PageHolds(d.page, k, n) && |d.log| + (cap - n) + 1 < LC.MAX_LSN;
    var row := (d: LC.Desk) => LC.InsertRow(d, pid, txn, Zeros(k));
    forall d, n: nat | holds(d, n) && n < cap ensures row(d).Some? && holds(row(d).value, n + 1) {
      RowFits(d, pid, txn, k, n);
    }
    forall d | holds(d, cap) ensures row(d).None? { RowFits(d, pid, txn, k, cap); }
    RepeatCounts(w, row, m, holds, c, cap);
  }

  // ---------------------------------------------------------------- one INSERT

  /** A batch of rows, its transaction if any, and the device schedule of its page fetch. */
  datatype Insert = Insert(rows: nat, txn: Option<nat>, schedule: seq<seq<nat>>)

  function Target(db: Db): PageId {
    if db.first == INVALID_PAGE_ID then db.st.pool.disk.nextPageId else db.first
  }

  function Opening(db: Db, e: Insert): Step {
    if db.first == INVALID_PAGE_ID then Creating(e.schedule) else Fetching(db.first, e.schedule)
  }

  /** The step returned a frame. */
  ghost predicate Obtains(st: State, step: Step)
    requires Enabled(st, step) && (step.Fetching? || step.Creating?)
  {
    if step.Fetching? then Fetch(st.pool, step.pid, step.schedule).1.Some? else New(st.pool, step.schedule).1.Some?
  }

  /** The executor gets its page: the call is legal and a frame is available, which the
      source takes for granted. The log must have room for its 64-bit numbers. */
  ghost predicate CanInsert(db: Db, k: nat, e: Insert) {
    && Good(db.st)
    && Enabled(db.st, Opening(db, e)) && Obtains(db.st, Opening(db, e))
    && Target(db) != INVALID_PAGE_ID
    && |db.log| + Capacity(k) + 1 < LC.MAX_LSN
  }

  lemma OpenGood(st: State, step: Step, pid: PageId)
    requires Good(st) && Enabled(st, step)
    requires (step.Creating? && pid == st.pool.disk.nextPageId) || (step.Fetching? && pid == step.pid)
    requires Obtains(st, step)
    ensures Good(Next(st, step)) && pid in Next(st, step).pool.table
    ensures forall q :: Content(Next(st, step).pool, q) == Content(st.pool, q)
    ensures forall q :: PinCount(Next(st, step).pool, q) == PinCount(st.pool, q) + (if q == pid then 1 else 0)
    ensures Next(st, step).owed == st.owed
  {
    if step.Fetching? {
      FetchKeepsContent(st, pid, step.schedule);
      FetchValid(st.pool, pid, step.schedule);
      FetchPins(st.pool, pid, step.schedule);
    } else {
      NewKeepsContent(st, step.schedule);
      NewPins(st.pool, step.schedule);
      assert PinCount(Next(st, step).pool, pid) == PinCount(st.pool, pid) + 1;
    }
  }

  /** What the loop starts from: a new page is formatted, an old one read from the pool. */
  ghost function Before(db: Db, e: Insert): LC.Desk
    requires InRange(db.st.pool)
  {
    LC.Desk(if db.first == INVALID_PAGE_ID then SP.Init(ZeroPage()) else Content(db.st.pool, db.first), db.log)
  }

  ghost function After(db: Db, k: nat, e: Insert): LC.Desk
    requires InRange(db.st.pool)
  {
    LC.InsertRows(Before(db, e), Target(db), e.txn, Zeros(k), e.rows)
  }

  /** Open the page, store the bytes the loop leaves in it, unpin it dirty. */
  ghost function DoInsert(db: Db, k: nat, e: Insert): Db
    requires CanInsert(db, k, e)
  {
    Db(StoreAndUnpin(Next(db.st, Opening(db, e)), Target(db), After(db, k, e).page), Target(db), After(db, k, e).log)
  }

  /** The page is dirty after the unpin, so nobody owes it one. */
  ghost function StoreAndUnpin(st: State, pid: PageId, page: PageData): State {
    State(PutBack(st.pool, pid, page), st.owed - {pid})
  }

  lemma StoreAndUnpinDoes(st: State, pid: PageId, page: PageData)
    requires Good(st) && pid in st.pool.table && PinCount(st.pool, pid) > 0
    ensures var t := StoreAndUnpin(st, pid, page);
            && Good(t)
            && (forall q :: Content(t.pool, q) == if q == pid then page else Content(st.pool, q))
            && (forall q :: PinCount(t.pool, q) == PinCount(st.pool, q) - if q == pid then 1 else 0)
  {
    WriteUpdatesContent(st, pid, page, false);
    WritePins(st.pool, pid, page, false);
    var st1 := Next(st, Writing(pid, page, false));
    UnpinKeepsContent(st1, pid, true);
    UnpinPins(st1.pool, pid, true);
    assert Next(st1, Unpinning(pid, true)).owed == st.owed - {pid};
  }

  /** One INSERT, whatever the pool had to evict for it: the invariant is kept, the table page
      gets the rows of the loop, no other page changes, and every pin count is as before. */
  lemma InsertDoes(db: Db, k: nat, e: Insert)
    requires CanInsert(db, k, e)
    ensures var db' := DoInsert(db, k, e);
            && Good(db'.st) && db'.first == Target(db)
            && (forall q :: Content(db'.st.pool, q) ==
                            if q == Target(db) then After(db, k, e).page else Content(db.st.pool, q))
            && (forall q :: PinCount(db'.st.pool, q) == PinCount(db.st.pool, q))
  {
    OpenGood(db.st, Opening(db, e), Target(db));
    StoreAndUnpinDoes(Next(db.st, Opening(db, e)), Target(db), After(db, k, e).page);
  }

  lemma WritePins(s: Pool, pid: PageId, data: PageData, mark: bool)
    requires Valid(s) && pid in s.table
    ensures InRange(ClientWrite(s, pid, data, mark))
    ensures forall q :: PinCount(ClientWrite(s, pid, data, mark), q) == PinCount(s, q)
  {}

  // ---------------------------------------------------------------- whole runs

  datatype Event = Traffic(step: Step) | Inserting(insert: Insert) | Logging(rec: LogRecord)

  /** Other clients do anything the pool allows, but do not write the table's page; and they
      log anything: BEGIN, COMMIT, ABORT, inserts into other tables. */
  ghost predicate CanDo(db: Db, k: nat, e: Event) {
    match e
    case Traffic(step) => Good(db.st) && Enabled(db.st, step) && !(step.Writing? && step.pid == db.first)
    case Inserting(i) => CanInsert(db, k, i)
    case Logging(rec) => true
  }

  ghost function Do(db: Db, k: nat, e: Event): Db {
    if !CanDo(db, k, e) then db
    else
      match e
      case Traffic(step) => db.(st := Next(db.st, step))
      case Inserting(i) => DoInsert(db, k, i)
      case Logging(rec) => db.(log := db.log + [rec])
  }

  function RowsOf(e: Event): nat { if e.Inserting? then e.insert.rows else 0 }

  ghost predicate IsDbRun(db: Db, k: nat, events: seq<Event>) {
    R.IsRun(db, events, (d: Db, e: Event) => CanDo(d, k, e), (d: Db, e: Event) => Do(d, k, e))
  }

  ghost function DbRun(db: Db, k: nat, events: seq<Event>): Db {
    R.Run(db, events, (d: Db, e: Event) => Do(d, k, e))
  }

  ghost function RowsInserted(events: seq<Event>): nat {
    R.Total(events, RowsOf)
  }

  /** After m rows the table's page holds the first min(m, capacity) of them. */
  ghost predicate TableHolds(db: Db, k: nat, m: nat) {
    && Good(db.st)
    && if db.first == INVALID_PAGE_ID then m == 0
       else PageHolds(Content(db.st.pool, db.first), k, Min(m, Capacity(k)))
  }

  lemma TrafficKeepsContent(db: Db, k: nat, step: Step)
    requires CanDo(db, k, Traffic(step))
    ensures Good(Do(db, k, Traffic(step)).st)
    ensures Content(Do(db, k, Traffic(step)).st.pool, db.first) == Content(db.st.pool, db.first)
  {
    match step
    case Fetching(pid, schedule) => FetchKeepsContent(db.st, pid, schedule);
    case Creating(schedule) => NewKeepsContent(db.st, schedule);
    case Unpinning(pid, dirty) => UnpinKeepsContent(db.st, pid, dirty);
    case Flushing(pid) => FlushKeepsContent(db.st, pid);
    case Writing(pid, data, mark) => WriteUpdatesContent(db.st, pid, data, mark);
    case Landing(i) => LandKeepsContent(db.st, i);
    case Polling(order) => PollStepKeepsContent(db.st, order);
  }

  lemma TrafficKeepsTable(db: Db, k: nat, m: nat, e: Event)
    requires TableHolds(db, k, m) && CanDo(db, k, e) && e.Traffic?
    ensures TableHolds(Do(db, k, e), k, m + RowsOf(e))
  {
    TrafficKeepsContent(db, k, e.step);
  }

  lemma BatchAddsRows(db: Db, k: nat, m: nat, e: Insert)
    requires TableHolds(db, k, m) && CanInsert(db, k, e) && !(65532 <= k <= 65535)
    ensures PageHolds(After(db, k, e).page, k, Min(m + e.rows, Capacity(k)))
  {
    if db.first == INVALID_PAGE_ID {
      SP.InitRepresents(ZeroPage());
      assert TableRows(k, 0) == [];
    }
    BatchFills(Before(db, e), Target(db), e.txn, k, Min(m, Capacity(k)), e.rows);
  }

  lemma InsertStores(db: Db, k: nat, e: Event)
    requires CanDo(db, k, e) && e.Inserting?
    ensures var db' := Do(db, k, e);
            && Good(db'.st) && db'.first != INVALID_PAGE_ID
            && Content(db'.st.pool, db'.first) == After(db, k, e.insert).page
  {
    InsertDoes(db, k, e.insert);
    assert Do(db, k, e) == DoInsert(db, k, e.insert);
  }

  lemma InsertAddsRows(db: Db, k: nat, m: nat, e: Event)
    requires TableHolds(db, k, m) && CanDo(db, k, e) && e.Inserting? && !(65532 <= k <= 65535)
    ensures TableHolds(Do(db, k, e), k, m + RowsOf(e))
  {
    InsertStores(db, k, e);
    BatchAddsRows(db, k, m, e.insert);
  }

  lemma LoggingKeepsTable(db: Db, k: nat, m: nat, e: Event)
    requires TableHolds(db, k, m) && e.Logging?
    ensures TableHolds(Do(db, k, e), k, m + RowsOf(e))
  {}

  lemma EventKeepsTable(db: Db, k: nat, m: nat, e: Event)
    requires TableHolds(db, k, m) && CanDo(db, k, e) && !(65532 <= k <= 65535)
    ensures TableHolds(Do(db, k, e), k, m + RowsOf(e))
  {
    match e
    case Traffic(_) => TrafficKeepsTable(db, k, m, e);
    case Inserting(_) => InsertAddsRows(db, k, m, e);
    case Logging(_) => LoggingKeepsTable(db, k, m, e);
  }

  lemma EventsKeepTable(k: nat)
    requires !(65532 <= k <= 65535)
    ensures forall d, n: nat, e :: TableHolds(d, k, n) && CanDo(d, k, e) ==> TableHolds(Do(d, k, e), k, n + RowsOf(e))
  {
    forall d, n: nat, e | TableHolds(d, k, n) && CanDo(d, k, e) ensures TableHolds(Do(d, k, e), k, n + RowsOf(e)) {
      EventKeepsTable(d, k, n, e);
    }
  }

  /** After any run of batches and other traffic the table holds the first
      min(m, capacity) of the m rows inserted. */
  lemma RunFillsTable(db: Db, k: nat, m: nat, events: seq<Event>)
    requires TableHolds(db, k, m) && IsDbRun(db, k, events) && !(65532 <= k <= 65535)
    ensures TableHolds(DbRun(db, k, events), k, m + RowsInserted(events))
  {
    var can := (d: Db, e: Event) => CanDo(d, k, e);
    var next := (d: Db, e: Event) => Do(d, k, e);
    var inv := (d: Db, n: nat) => TableHolds(d, k, n);
    EventsKeepTable(k);
    R.RunKeeps(db, m, events, can, next, RowsOf, inv);
    assert inv(DbRun(db, k, events), m + RowsInserted(events));
  }

  /** What a reader finds in the table's slots: k zero bytes each, as long as k is not zero. */
  lemma RowsAreZeros(db: Db, k: nat, m: nat, slot: nat)
    requires TableHolds(db, k, m) && slot < Min(m, Capacity(k))
    ensures db.first != INVALID_PAGE_ID && SP.Readable(Content(db.st.pool, db.first), slot)
    ensures var t := SP.GetTuple(Content(db.st.pool, db.first), slot);
            if k == 0 then t == None
            else t.Some? && |t.value| == k && forall j :: 0 <= j < k ==> t.value[j] == 0
  {
    var page := Content(db.st.pool, db.first);
    SP.GetTupleReads(page, TableRows(k, Min(m, Capacity(k))), SP.LSN(page), slot);
  }

  // ---------------------------------------------------------------- the log rebuilds the table

  /** Every batch belongs to a transaction, and the log has LSNs left for all its rows. The
      id of a new page is fresh for the log too, and nobody else logs inserts on the page. */
  ghost predicate CanLog(db: Db, k: nat, e: Event) {
    && CanDo(db, k, e)
    && (e.Inserting? ==> e.insert.txn.Some? && |db.log| + e.insert.rows < LC.MAX_LSN)
    && (e.Inserting? && db.first == INVALID_PAGE_ID ==> NoInsertOn(db.log, Target(db)))
    && (e.Logging? ==> !C.IsInsertOn(e.rec, db.first))
  }

  ghost predicate NoInsertOn(log: seq<LogRecord>, pid: PageId) {
    forall i :: 0 <= i < |log| ==> !C.IsInsertOn(log[i], pid)
  }

  ghost predicate IsLoggedRun(db: Db, k: nat, events: seq<Event>) {
    R.IsRun(db, events, (d: Db, e: Event) => CanLog(d, k, e), (d: Db, e: Event) => Do(d, k, e))
  }

  /** The page as the pool's clients see it heads the chain of its inserts in the log. */
  ghost predicate TableChained(db: Db) {
    && Good(db.st)
    && (db.first != INVALID_PAGE_ID ==> LC.Chained(db.log, db.first, Content(db.st.pool, db.first)))
  }

  lemma BatchChains(db: Db, k: nat, e: Insert)
    requires TableChained(db) && CanLog(db, k, Inserting(e)) && !(65532 <= k <= 65535)
    ensures LC.Chained(After(db, k, e).log, Target(db), After(db, k, e).page)
  {
    if db.first == INVALID_PAGE_ID { LC.FormatChained(db.log, Target(db)); }
    LC.BatchKeepsChain(Before(db, e), Target(db), e.txn.value, Zeros(k), e.rows);
    assert e.txn == Some(e.txn.value);
  }

  lemma InsertChains(db: Db, k: nat, e: Insert)
    requires TableChained(db) && CanLog(db, k, Inserting(e)) && !(65532 <= k <= 65535)
    ensures TableChained(DoInsert(db, k, e))
  {
    BatchChains(db, k, e);
    InsertDoes(db, k, e);
  }

  lemma OtherRecordChains(db: Db, rec: LogRecord)
    requires TableChained(db) && !C.IsInsertOn(rec, db.first)
    ensures TableChained(db.(log := db.log + [rec]))
  {
    if db.first != INVALID_PAGE_ID {
      var page := Content(db.st.pool, db.first);
      C.OtherRecordKeeps(db.log, rec, db.first, page, SP.LSN(page), LC.RedoInsert, SP.Init(ZeroPage()));
    }
  }

  lemma EventChains(db: Db, k: nat, e: Event)
    requires TableChained(db) && CanLog(db, k, e) && !(65532 <= k <= 65535)
    ensures TableChained(Do(db, k, e))
  {
    match e
    case Traffic(step) => TrafficKeepsContent(db, k, step);
    case Inserting(i) => InsertChains(db, k, i);
    case Logging(rec) => OtherRecordChains(db, rec);
  }

  lemma EventsChain(k: nat)
    requires !(65532 <= k <= 65535)
    ensures forall d, e :: TableChained(d) && CanLog(d, k, e) ==> TableChained(Do(d, k, e))
  {
    forall d, e | TableChained(d) && CanLog(d, k, e) ensures TableChained(Do(d, k, e)) { EventChains(d, k, e); }
  }

  /** After any run of logged batches, other records and other traffic over the pool, the log
      alone rebuilds the table's page, whether its last version is in a frame, in flight or on disk. */
  lemma LogRebuildsTable(n: nat, disk: Disk, k: nat, events: seq<Event>)
    requires disk.inflight == [] && !(65532 <= k <= 65535)
    requires IsLoggedRun(Empty(n, disk), k, events)
    requires DbRun(Empty(n, disk), k, events).first != INVALID_PAGE_ID
    ensures var db := DbRun(Empty(n, disk), k, events);
            && InRange(db.st.pool)
            && var page := Content(db.st.pool, db.first);
               && C.Grounded(db.log, SP.LSN(page))
               && var lsns := C.Chain(db.log, SP.LSN(page));
               && C.Visits(lsns, db.log, |db.log|, db.first) && C.Falling(lsns, |db.log|)
               && C.Replay(db.log, lsns, LC.RedoInsert, SP.Init(ZeroPage())) == page
  {
    FreshGood(n, disk);
    var can := (d: Db, e: Event) => CanLog(d, k, e);
    var next := (d: Db, e: Event) => Do(d, k, e);
    var inv := (d: Db, m: nat) => TableChained(d);
    EventsChain(k);
    R.RunKeeps(Empty(n, disk), 0, events, can, next, RowsOf, inv);
    var db := DbRun(Empty(n, disk), k, events);
    var page := Content(db.st.pool, db.first);
    C.LinkedMeans(db.log, db.first, page, SP.LSN(page), LC.RedoInsert, SP.Init(ZeroPage()));
  }

  // ---------------------------------------------------------------- SELECT

  /** One call of the scan's Next after some other traffic, with its fetch schedule. */
  datatype Call = Call(traffic: seq<Step>, schedule: seq<seq<nat>>)

  /** Traffic that leaves the table's page alone. */
  ghost predicate Quiet(st: State, steps: seq<Step>, pid: PageId)
    decreases steps
  {
    steps == [] ||
    (Enabled(st, steps[0]) && !(steps[0].Writing? && steps[0].pid == pid) && Quiet(Next(st, steps[0]), steps[1..], pid))
  }

  ghost function Settle(st: State, steps: seq<Step>, pid: PageId): State
    requires Quiet(st, steps, pid)
    decreases steps
  {
    if steps == [] then st else Settle(Next(st, steps[0]), steps[1..], pid)
  }

  lemma {:induction false} QuietKeeps(db: Db, k: nat, m: nat, steps: seq<Step>)
    requires TableHolds(db, k, m) && Quiet(db.st, steps, db.first)
    ensures TableHolds(db.(st := Settle(db.st, steps, db.first)), k, m)
    decreases steps
  {
    if steps != [] {
      TrafficKeepsTable(db, k, m, Traffic(steps[0]));
      QuietKeeps(db.(st := Next(db.st, steps[0])), k, m, steps[1..]);
    } else {
      assert db.(st := db.st) == db;
    }
  }

  /** Next of the scan at a slot: the page is fetched, the slot compared with the page's
      tuple count, and the page unpinned clean. */
  ghost predicate CanScan(db: Db, schedule: seq<seq<nat>>) {
    && Good(db.st)
    && (db.first != INVALID_PAGE_ID ==>
          Enabled(db.st, Fetching(db.first, schedule)) && Obtains(db.st, Fetching(db.first, schedule)))
  }

  ghost function ScanNext(db: Db, slot: nat, schedule: seq<seq<nat>>): (Db, bool)
    requires CanScan(db, schedule)
  {
    if db.first == INVALID_PAGE_ID then (db, false)
    else
      OpenGood(db.st, Fetching(db.first, schedule), db.first);
      var st := Next(db.st, Fetching(db.first, schedule));
      (db.(st := Next(st, Unpinning(db.first, false))), slot < SP.TupleCount(Content(st.pool, db.first)))
  }

  /** A scan step returns a row exactly while the slot is below the rows on the page, and
      changes no page content and no pin count. */
  lemma ScanNextDoes(db: Db, k: nat, m: nat, slot: nat, schedule: seq<seq<nat>>)
    requires TableHolds(db, k, m) && CanScan(db, schedule)
    ensures var (db', more) := ScanNext(db, slot, schedule);
            && TableHolds(db', k, m) && db'.first == db.first
            && (more <==> slot < Min(m, Capacity(k)))
            && (forall q :: PinCount(db'.st.pool, q) == PinCount(db.st.pool, q))
            && (forall q :: Content(db'.st.pool, q) == Content(db.st.pool, q))
  {
    if db.first != INVALID_PAGE_ID { LookKeeps(db.st, db.first, schedule); }
  }

  /** Fetching a page and giving it back clean changes no content and no pin count. */
  lemma LookKeeps(st: State, pid: PageId, schedule: seq<seq<nat>>)
    requires Good(st) && Enabled(st, Fetching(pid, schedule)) && Obtains(st, Fetching(pid, schedule))
    ensures Enabled(Next(st, Fetching(pid, schedule)), Unpinning(pid, false))
    ensures var st1 := Next(st, Fetching(pid, schedule));
            var t := Next(st1, Unpinning(pid, false));
            && Good(t) && Content(st1.pool, pid) == Content(st.pool, pid)
            && (forall q :: PinCount(t.pool, q) == PinCount(st.pool, q))
            && (forall q :: Content(t.pool, q) == Content(st.pool, q))
  {
    OpenGood(st, Fetching(pid, schedule), pid);
    var st1 := Next(st, Fetching(pid, schedule));
    UnpinKeepsContent(st1, pid, false);
    UnpinPins(st1.pool, pid, false);
  }

  /** The scan's state: the database and the cursor. */
  datatype Cursor = Cursor(db: Db, slot: nat)

  ghost predicate CanCall(s: Cursor, c: Call) {
    Quiet(s.db.st, c.traffic, s.db.first)
    && CanScan(s.db.(st := Settle(s.db.st, c.traffic, s.db.first)), c.schedule)
  }

  ghost function DoCall(s: Cursor, c: Call): (Cursor, bool) {
    if !CanCall(s, c) then (s, false)
    else
      var (db, more) := ScanNext(s.db.(st := Settle(s.db.st, c.traffic, s.db.first)), s.slot, c.schedule);
      (Cursor(db, s.slot + if more then 1 else 0), more)
  }

  /** The loop of a SELECT: call Next until it returns false or the calls run out. */
  ghost predicate IsScan(db: Db, calls: seq<Call>) {
    R.IsLoop(Cursor(db, 0), calls, CanCall, DoCall)
  }

  ghost function ScanRows(db: Db, calls: seq<Call>): nat {
    R.LoopCount(Cursor(db, 0), calls, DoCall)
  }

  lemma CallDoes(s: Cursor, k: nat, m: nat, c: Call)
    requires TableHolds(s.db, k, m) && CanCall(s, c)
    ensures var (s', more) := DoCall(s, c);
            && TableHolds(s'.db, k, m)
            && (more <==> s.slot < Min(m, Capacity(k)))
            && s'.slot == s.slot + if more then 1 else 0
  {
    QuietKeeps(s.db, k, m, c.traffic);
    ScanNextDoes(s.db.(st := Settle(s.db.st, c.traffic, s.db.first)), k, m, s.slot, c.schedule);
  }

  lemma ScanCounts(db: Db, k: nat, m: nat, calls: seq<Call>)
    requires TableHolds(db, k, m) && IsScan(db, calls)
    ensures ScanRows(db, calls) == Min(|calls|, Min(m, Capacity(k)))
  {
    var inv := (s: Cursor, n: nat) => s.slot == n && TableHolds(s.db, k, m);
    forall s, n: nat, c | inv(s, n) && CanCall(s, c)
      ensures (DoCall(s, c).1 <==> n < Min(m, Capacity(k))) && (DoCall(s, c).1 ==> inv(DoCall(s, c).0, n + 1))
    {
      CallDoes(s, k, m, c);
    }
    R.LoopCounts(Cursor(db, 0), 0, Min(m, Capacity(k)), calls, CanCall, DoCall, inv);
  }

  /** End to end: from an empty table over an empty pool and any file, after INSERT batches
      totalling m rows of length k, with evictions and other traffic between them and
      between the calls of the scan, a full scan returns exactly min(m, floor(8180 / (k + 4))) rows. */
  lemma SelectCountsInserts(n: nat, disk: Disk, k: nat, events: seq<Event>, calls: seq<Call>)
    requires disk.inflight == [] && !(65532 <= k <= 65535)
    requires IsDbRun(Empty(n, disk), k, events)
    requires IsScan(DbRun(Empty(n, disk), k, events), calls)
    requires |calls| > Capacity(k)
    ensures ScanRows(DbRun(Empty(n, disk), k, events), calls) ==
            Min(RowsInserted(events), 8180 / (k + 4))
  {
    FreshGood(n, disk);
    RunFillsTable(Empty(n, disk), k, 0, events);
    var db := DbRun(Empty(n, disk), k, events);
    assert TableHolds(db, k, RowsInserted(events));
    ScanCounts(db, k, RowsInserted(events), calls);
  }
}
