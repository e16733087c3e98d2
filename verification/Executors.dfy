/**
 The two executors as objects over the buffer pool, the slotted page and the transaction
 manager. The pages they work on are copied out of the pool and stored back.
 */
module Executors {
  import opened Config
  import opened Disk
  import opened BufferPool
  import opened Log
  import PM = PoolManager
  import PO = PageObject
  import T = Transactions
  import TM = TransactionManager
  import LC = LsnChain
  import PR = PoolRuns
  import EE = EndToEnd
  import LB = LogBound
  import SP = SlottedPage

  class TableInfo {
    var firstPageId: PageId
    const tupleLength: nat

    constructor (tupleLength: nat)
      ensures firstPageId == INVALID_PAGE_ID && this.tupleLength == tupleLength
    {
      firstPageId := INVALID_PAGE_ID;
      this.tupleLength := tupleLength;
    }
  }

  class InsertExecutor {
    const pool: PM.BufferPoolManager
    const tm: TM.TransactionManager
    const table: TableInfo
    const txn: TM.Transaction?

    constructor (pool: PM.BufferPoolManager, tm: TM.TransactionManager, table: TableInfo, txn: TM.Transaction?)
      ensures this.pool == pool && this.tm == tm && this.table == table && this.txn == txn
    {
      this.pool, this.tm, this.table, this.txn := pool, tm, table, txn;
    }

    ghost predicate TxnValid()
      reads tm, tm.log, tm.epochs, tm.epochs.counters, tm.txns.Values
    {
      tm.Valid() && (txn != null ==> tm.Owns(txn))
    }

    function TxnId(): Option<nat> { if txn == null then None else Some(txn.id) }

    /** The record of an insert names the page's LSN as its predecessor; the page then takes
        the LSN of the record. */
    method LogAndStamp(page: PO.SlottedPage, tuple: seq<Byte>, slot: nat)
      requires TxnValid() && txn != null && page.Valid()
      modifies page.data, tm`sys, tm.log, txn
      ensures TxnValid()
      ensures page.data[..] == SP.SetLSN(old(page.data[..]), |old(tm.sys.log)| + 1)
      ensures tm.sys.log == old(tm.sys.log) +
                            [Change(txn.id, SP.LSN(old(page.data[..])), INSERT, RID(page.pid, slot), tuple)]
      ensures tm.log.Abs() == Append(old(tm.log.Abs()), tm.sys.log[|old(tm.sys.log)|])
    {
      var prev := page.GetLSN();
      var lsn := tm.RecordInsert(txn, prev, RID(page.pid, slot), tuple);
      page.SetLSN(lsn);
    }

    /** One row: insert it, and if there is a transaction log it and stamp the page. */
    method InsertOne(page: PO.SlottedPage, tuple: seq<Byte>, ghost held: seq<SP.Row>) returns (ok: bool)
      requires TxnValid() && page.Valid() && SP.Represents(page.data[..], held, SP.LSN(page.data[..]))
      requires !(65532 <= |tuple| <= 65535)
      modifies page`dirty, page.data, tm`sys, tm.log, if txn != null then {txn} else {}
      ensures TxnValid()
      ensures LC.InsertRow(LC.Desk(old(page.data[..]), old(tm.sys.log)), page.pid, TxnId(), tuple) ==
              if ok then Some(LC.Desk(page.data[..], tm.sys.log)) else None
      ensures !ok ==> page.data[..] == old(page.data[..]) && tm.sys.log == old(tm.sys.log)
      ensures |tm.sys.log| <= |old(tm.sys.log)| + 1
    {
      ghost var start := LC.Desk(page.data[..], tm.sys.log);
      var slot;
      ok, slot := page.InsertTuple(tuple, held, SP.LSN(start.page));
      LC.InsertRowIs(start, page.pid, TxnId(), tuple, SP.InsertTuple(start.page, tuple));
      if ok && txn != null { LogAndStamp(page, tuple, slot); }
    }

    /** Where the loop over the rows ends up from here with n rows still to come. */
    ghost function Rest(page: PO.SlottedPage, tuple: seq<Byte>, n: nat): LC.Desk
      requires page.Valid() && LC.IsPage(page.data[..])
      reads page.data, tm
    {
      LC.InsertRows(LC.Desk(page.data[..], tm.sys.log), page.pid, TxnId(), tuple, n)
    }

    /** One round of the loop: it goes on with one row less, or stops if the page refused. */
    method InsertNext(page: PO.SlottedPage, tuple: seq<Byte>, left: nat) returns (rest: nat)
      requires TxnValid() && page.Valid() && LC.IsPage(page.data[..]) && left > 0
      requires !(65532 <= |tuple| <= 65535) && |tm.sys.log| + left < LC.MAX_LSN
      modifies page`dirty, page.data, tm`sys, tm.log, if txn != null then {txn} else {}
      ensures TxnValid() && LC.IsPage(page.data[..])
      ensures rest < left && |tm.sys.log| + rest <= |old(tm.sys.log)| + left
      ensures Rest(page, tuple, rest) == old(Rest(page, tuple, left))
    {
      ghost var held :| SP.Represents(page.data[..], held, SP.LSN(page.data[..]));
      ghost var start := LC.Desk(page.data[..], tm.sys.log);
      var ok := InsertOne(page, tuple, held);
      if ok { LC.InsertRowKeepsPage(start, page.pid, TxnId(), tuple); }
      ghost var after := LC.Desk(page.data[..], tm.sys.log);
      rest := if ok then left - 1 else 0;
      LC.RestOfBatch(start, page.pid, TxnId(), tuple, left, after, rest);
      assert Rest(page, tuple, rest) == LC.InsertRows(after, page.pid, TxnId(), tuple, rest);
    }

    /** The loop over the rows of a batch; it stops when the page refuses a row. */
    method InsertAll(page: PO.SlottedPage, tuple: seq<Byte>, rows: nat)
      requires TxnValid() && page.Valid() && LC.IsPage(page.data[..])
      requires !(65532 <= |tuple| <= 65535) && |tm.sys.log| + rows < LC.MAX_LSN
      modifies page`dirty, page.data, tm`sys, tm.log, if txn != null then {txn} else {}
      ensures TxnValid()
      ensures LC.Desk(page.data[..], tm.sys.log) == old(Rest(page, tuple, rows))
    {
      var left := rows;
      while left > 0
        invariant TxnValid() && LC.IsPage(page.data[..]) && |tm.sys.log| + left < LC.MAX_LSN
        invariant Rest(page, tuple, left) == old(Rest(page, tuple, rows))
      {
        left := InsertNext(page, tuple, left);
      }
      LC.InsertRowsStep(LC.Desk(page.data[..], tm.sys.log), page.pid, TxnId(), tuple, 0);
    }

    /** What the executor works on: pool, first page of the table, log. */
    ghost function Now(): Outcome
      reads table, tm, pool, pool.pages, pool.disk
    {
      Outcome(pool.Abs(), table.firstPageId, tm.sys.log)
    }

    /** One call: take the child's batch if there is one, open the table's page (creating and
        formatting it for an empty table), run the loop, unpin the page dirty. It never
        produces rows. */
    method Next(batch: Option<nat>, schedule: seq<seq<nat>>) returns (more: bool)
      requires BufferPool.Valid(pool.Abs()) && TxnValid()
      requires batch.Some? ==> CanFill(pool.Abs(), table.firstPageId, schedule)
      requires !(65532 <= table.tupleLength <= 65535)
      requires batch.Some? ==> |tm.sys.log| + batch.value < LC.MAX_LSN
      modifies pool, pool.pages, pool.disk, table, tm`sys, tm.log, if txn != null then {txn} else {}
      ensures !more && BufferPool.Valid(pool.Abs()) && TxnValid()
      ensures batch.None? ==> Now() == old(Now()) && tm.sys == old(tm.sys)
      ensures batch.Some? ==> Now() == Batch(old(Now()), TxnId(), table.tupleLength, batch.value, schedule)
      ensures old(AllSmall(tm.sys.log)) ==> AllSmall(tm.sys.log) && Ok(tm.log.Abs())
    {
      more := false;
      if batch.Some? {
        BatchStaysSmall(Now(), TxnId(), table.tupleLength, batch.value, schedule);
        InsertBatch(batch.value, schedule);
      }
      T.WalFollowsLog(tm.sys);
      if AllSmall(tm.sys.log) { LogAfterOk(tm.sys.log, |tm.sys.log|); }
    }

    method InsertBatch(rows: nat, schedule: seq<seq<nat>>)
      requires TxnValid() && CanFill(pool.Abs(), table.firstPageId, schedule)
      requires !(65532 <= table.tupleLength <= 65535) && |tm.sys.log| + rows < LC.MAX_LSN
      modifies pool, pool.pages, pool.disk, table, tm`sys, tm.log, if txn != null then {txn} else {}
      ensures BufferPool.Valid(pool.Abs()) && TxnValid()
      ensures Now() == Batch(old(Now()), TxnId(), table.tupleLength, rows, schedule)
    {
      ghost var before := Now();
      var empty := table.firstPageId == INVALID_PAGE_ID;
      var pid, bytes := OpenTable(schedule);
      BatchIs(before, TxnId(), table.tupleLength, rows, schedule, if empty then SP.Init(ZeroPage()) else bytes);
      FillAndClose(pid, bytes, empty, rows);
    }

    method FillAndClose(pid: PageId, bytes: PageData, empty: bool, rows: nat)
      requires TxnValid() && (!empty ==> LC.IsPage(bytes))
      requires BufferPool.Valid(pool.Abs()) && pid in pool.table && PinCount(pool.Abs(), pid) > 0
      requires !(65532 <= table.tupleLength <= 65535) && |tm.sys.log| + rows < LC.MAX_LSN
      modifies pool, pool.pages, tm`sys, tm.log, if txn != null then {txn} else {}
      ensures BufferPool.Valid(pool.Abs()) && TxnValid() && unchanged(table)
      ensures var start := LC.Desk(if empty then SP.Init(ZeroPage()) else bytes, old(tm.sys.log));
              var desk := LC.InsertRows(start, pid, TxnId(), EE.Zeros(table.tupleLength), rows);
              tm.sys.log == desk.log && pool.Abs() == PutBack(old(pool.Abs()), pid, desk.page)
    {
      var page := FillBesidePool(pid, bytes, empty, rows);
      ClosePage(pid, page);
    }

    /** Opening the page leaves the transactions alone. */
    method OpenTable(schedule: seq<seq<nat>>) returns (pid: PageId, bytes: PageData)
      requires CanOpen(pool.Abs(), table.firstPageId, schedule) && TxnValid()
      modifies pool, pool.pages, pool.disk, table
      ensures TxnValid()
      ensures var first, s := old(table.firstPageId), old(pool.Abs());
              && pid == FirstPage(s, first)
              && pool.Abs() == OpenPage(s, first, schedule).0
              && (first != INVALID_PAGE_ID ==> bytes == OpenedPage(s, first, schedule))
      ensures table.firstPageId == pid
      ensures BufferPool.Valid(pool.Abs()) && pid in pool.table && PinCount(pool.Abs(), pid) > 0
    {
      pid, bytes := OpenFirst(schedule);
    }

    method OpenFirst(schedule: seq<seq<nat>>) returns (pid: PageId, bytes: PageData)
      requires CanOpen(pool.Abs(), table.firstPageId, schedule)
      modifies pool, pool.pages, pool.disk, table
      ensures var first, s := old(table.firstPageId), old(pool.Abs());
              && pid == FirstPage(s, first)
              && pool.Abs() == OpenPage(s, first, schedule).0
              && (first != INVALID_PAGE_ID ==> bytes == OpenedPage(s, first, schedule))
      ensures table.firstPageId == pid
      ensures BufferPool.Valid(pool.Abs()) && pid in pool.table && PinCount(pool.Abs(), pid) > 0
    {
      OpenPins(pool.Abs(), table.firstPageId, schedule);
      if table.firstPageId == INVALID_PAGE_ID {
        var frame;
        frame, pid := pool.NewPage(schedule);
        table.firstPageId := pid;
        bytes := ZeroPage();
      } else {
        pid := table.firstPageId;
        var frame := pool.FetchPage(pid, schedule);
        bytes := pool.pages[frame.value].data;
      }
    }

    /** Filling the copy of the page leaves the pool alone. */
    method FillBesidePool(pid: PageId, bytes: PageData, empty: bool, rows: nat) returns (data: PageData)
      requires TxnValid() && (!empty ==> LC.IsPage(bytes))
      requires !(65532 <= table.tupleLength <= 65535) && |tm.sys.log| + rows < LC.MAX_LSN
      modifies tm`sys, tm.log, if txn != null then {txn} else {}
      ensures TxnValid() && unchanged(pool, pool.pages, pool.disk, table)
      ensures LC.Desk(data, tm.sys.log) ==
              LC.InsertRows(LC.Desk(if empty then SP.Init(ZeroPage()) else bytes, old(tm.sys.log)),
                            pid, TxnId(), EE.Zeros(table.tupleLength), rows)
    {
      data := FillPage(pid, bytes, empty, rows);
    }

    method FillPage(pid: PageId, bytes: PageData, empty: bool, rows: nat) returns (data: PageData)
      requires TxnValid() && (!empty ==> LC.IsPage(bytes))
      requires !(65532 <= table.tupleLength <= 65535) && |tm.sys.log| + rows < LC.MAX_LSN
      modifies tm`sys, tm.log, if txn != null then {txn} else {}
      ensures TxnValid()
      ensures LC.Desk(data, tm.sys.log) ==
              LC.InsertRows(LC.Desk(if empty then SP.Init(ZeroPage()) else bytes, old(tm.sys.log)),
                            pid, TxnId(), EE.Zeros(table.tupleLength), rows)
    {
      var page := ViewPage(pid, bytes, empty);
      InsertAll(page, EE.Zeros(table.tupleLength), rows);
      data := page.data[..];
    }

    /** The bytes as a slotted page, formatted first if the table was empty. */
    method ViewPage(pid: PageId, bytes: PageData, empty: bool) returns (page: PO.SlottedPage)
      requires !empty ==> LC.IsPage(bytes)
      ensures fresh(page) && fresh(page.data) && page.Valid() && page.pid == pid
      ensures page.data[..] == (if empty then SP.Init(ZeroPage()) else bytes) && LC.IsPage(page.data[..])
    {
      page := new PO.SlottedPage(pid, bytes, false);
      if empty {
        page.Init();
        InitIsPage(bytes);
      }
    }

    method ClosePage(pid: PageId, data: PageData)
      requires BufferPool.Valid(pool.Abs()) && pid in pool.table && PinCount(pool.Abs(), pid) > 0 && TxnValid()
      modifies pool, pool.pages
      ensures TxnValid() && unchanged(table)
      ensures BufferPool.Valid(pool.Abs()) && pool.Abs() == PutBack(old(pool.Abs()), pid, data)
    {
      pool.StoreBytes(pid, data, false);
      var _ := pool.UnpinPage(pid, true);
    }
  }

  lemma InitIsPage(d: PageData)
    ensures LC.IsPage(SP.Init(d)) && SP.Init(d) == SP.Init(ZeroPage())
  {
    SP.InitRepresents(d);
    assert SP.Represents(SP.Init(d), [], SP.LSN(SP.Init(d)));
  }

  /** The page an insert works on: a new one for an empty table, the first page otherwise. */
  function OpenPage(s: Pool, first: PageId, schedule: seq<seq<nat>>): (Pool, Option<nat>)
    requires InRange(s) && ((first in s.table && first != INVALID_PAGE_ID) || TakeReady(s, schedule))
  {
    if first == INVALID_PAGE_ID then New(s, schedule) else Fetch(s, first, schedule)
  }

  /** The call is legal and there is a frame for the page, which the source presumes. */
  ghost predicate CanOpen(s: Pool, first: PageId, schedule: seq<seq<nat>>) {
    && BufferPool.Valid(s)
    && ((first in s.table && first != INVALID_PAGE_ID) || TakeReady(s, schedule))
    && OpenPage(s, first, schedule).1.Some?
    && (first == INVALID_PAGE_ID ==> FreshId(s) && s.disk.nextPageId != INVALID_PAGE_ID)
  }

  ghost function OpenedPage(s: Pool, first: PageId, schedule: seq<seq<nat>>): PageData
    requires CanOpen(s, first, schedule)
  {
    if first == INVALID_PAGE_ID then SP.Init(ZeroPage())
    else
      FetchValid(s, first, schedule);
      Fetch(s, first, schedule).0.frames[Fetch(s, first, schedule).1.value].data
  }

  /** The frame shows a slotted page, unless the page is still to be formatted. */
  ghost predicate CanFill(s: Pool, first: PageId, schedule: seq<seq<nat>>) {
    CanOpen(s, first, schedule) && (first != INVALID_PAGE_ID ==> LC.IsPage(OpenedPage(s, first, schedule)))
  }

  function FirstPage(s: Pool, first: PageId): PageId {
    if first == INVALID_PAGE_ID then s.disk.nextPageId else first
  }

  /** The pool, the first page of the table and the log, before or after a batch. */
  datatype Outcome = Outcome(pool: Pool, first: PageId, log: seq<LogRecord>)

  /** A batch: open the page, run the loop on its bytes, put them back; the loop's records
      are in the log. */
  ghost function Batch(o: Outcome, txn: Option<nat>, k: nat, rows: nat, schedule: seq<seq<nat>>): Outcome
    requires CanOpen(o.pool, o.first, schedule)
  {
    var pid := FirstPage(o.pool, o.first);
    var desk := LC.InsertRows(LC.Desk(OpenedPage(o.pool, o.first, schedule), o.log), pid, txn, EE.Zeros(k), rows);
    Outcome(PutBack(OpenPage(o.pool, o.first, schedule).0, pid, desk.page), pid, desk.log)
  }

  lemma BatchIs(o: Outcome, txn: Option<nat>, k: nat, rows: nat, schedule: seq<seq<nat>>, page: PageData)
    requires CanOpen(o.pool, o.first, schedule) && page == OpenedPage(o.pool, o.first, schedule)
    ensures var pid := FirstPage(o.pool, o.first);
            var desk := LC.InsertRows(LC.Desk(page, o.log), pid, txn, EE.Zeros(k), rows);
            Batch(o, txn, k, rows, schedule) ==
            Outcome(PutBack(OpenPage(o.pool, o.first, schedule).0, pid, desk.page), pid, desk.log)
  {}

  /** The executor's records all fit a log buffer. */
  lemma BatchStaysSmall(o: Outcome, txn: Option<nat>, k: nat, rows: nat, schedule: seq<seq<nat>>)
    requires CanFill(o.pool, o.first, schedule)
    requires !(65532 <= k <= 65535) && |o.log| + rows < LC.MAX_LSN
    ensures AllSmall(o.log) ==> AllSmall(Batch(o, txn, k, rows, schedule).log)
  {
    if AllSmall(o.log) {
      InitIsPage(ZeroPage());
      var start := LC.Desk(OpenedPage(o.pool, o.first, schedule), o.log);
      LB.BatchKeepsSmall(start, FirstPage(o.pool, o.first), txn, EE.Zeros(k), rows);
    }
  }

  lemma OpenPins(s: Pool, first: PageId, schedule: seq<seq<nat>>)
    requires CanOpen(s, first, schedule)
    ensures var (t, got) := OpenPage(s, first, schedule);
            var pid := FirstPage(s, first);
            && BufferPool.Valid(t) && got.value < |t.frames| && pid in t.table && PinCount(t, pid) > 0
  {
    if first == INVALID_PAGE_ID {
      NewValid(s, schedule);
      NewPins(s, schedule);
      assert PinCount(New(s, schedule).0, s.disk.nextPageId) == 1 + PinCount(s, s.disk.nextPageId);
    } else {
      FetchValid(s, first, schedule);
      FetchPins(s, first, schedule);
    }
  }

  /** What a call of the insert executor does is one INSERT step of the database whose runs
      end in the right number of rows. */
  lemma BatchIsInsertStep(db: EE.Db, k: nat, e: EE.Insert)
    requires EE.CanInsert(db, k, e)
    ensures CanOpen(db.st.pool, db.first, e.schedule)
    ensures var after := EE.DoInsert(db, k, e);
            Batch(Outcome(db.st.pool, db.first, db.log), e.txn, k, e.rows, e.schedule) ==
            Outcome(after.st.pool, after.first, after.log)
  {
    EE.OpenGood(db.st, EE.Opening(db, e), EE.Target(db));
    if db.first != INVALID_PAGE_ID { PR.FetchKeepsContent(db.st, db.first, e.schedule); }
  }

  /** Along the runs of the database the precondition of the insert executor holds: the page
      it opens is a slotted page. */
  lemma RunsCanFill(db: EE.Db, k: nat, m: nat, e: EE.Insert)
    requires EE.TableHolds(db, k, m) && EE.CanInsert(db, k, e)
    ensures CanFill(db.st.pool, db.first, e.schedule)
  {
    BatchIsInsertStep(db, k, e);
    if db.first != INVALID_PAGE_ID { PR.FetchKeepsContent(db.st, db.first, e.schedule); }
  }

  /** Fetching needs a frame or a wait that ends. */
  predicate CanFetch(s: Pool, pid: PageId, schedule: seq<seq<nat>>) {
    InRange(s) && (pid in s.table || TakeReady(s, schedule))
  }

  /** A page that was fetched can be unpinned. */
  lemma FetchThenUnpin(s: Pool, pid: PageId, schedule: seq<seq<nat>>)
    requires BufferPool.Valid(s) && CanFetch(s, pid, schedule)
    ensures var (t, got) := Fetch(s, pid, schedule);
            && BufferPool.Valid(t) && (got.None? ==> t == s)
            && (got.Some? ==> got.value < |t.frames| && pid in t.table && CanUnpin(t, pid))
  {
    FetchValid(s, pid, schedule);
    if Fetch(s, pid, schedule).1.Some? { FetchPins(s, pid, schedule); }
  }

  /** A call of the scan: the pool it leaves, and whether there was a row under the cursor.
      Nothing happens for an empty table or when no frame is free. */
  ghost function Scanned(s: Pool, pid: PageId, slot: nat, schedule: seq<seq<nat>>): (Pool, bool)
    requires BufferPool.Valid(s) && (pid != INVALID_PAGE_ID ==> CanFetch(s, pid, schedule))
  {
    if pid == INVALID_PAGE_ID then (s, false)
    else
      FetchThenUnpin(s, pid, schedule);
      var (t, got) := Fetch(s, pid, schedule);
      if got.None? then (s, false)
      else (Unpin(t, pid, false), slot < SP.TupleCount(t.frames[got.value].data))
  }

  /** The slot under the cursor is one the page object can read. */
  ghost predicate CanLook(s: Pool, pid: PageId, slot: nat, schedule: seq<seq<nat>>)
    requires BufferPool.Valid(s)
  {
    pid != INVALID_PAGE_ID ==>
      && CanFetch(s, pid, schedule)
      && var (t, got) := Fetch(s, pid, schedule);
         got.Some? ==> got.value < |t.frames| && SP.Readable(t.frames[got.value].data, slot)
  }

  /** Likewise a call of the scan executor is one scan step, and it can always look. */
  lemma NextIsScanStep(db: EE.Db, slot: nat, schedule: seq<seq<nat>>)
    requires EE.CanScan(db, schedule) && db.first != INVALID_PAGE_ID
    ensures BufferPool.Valid(db.st.pool) && CanFetch(db.st.pool, db.first, schedule)
    ensures var (after, more) := EE.ScanNext(db, slot, schedule);
            Scanned(db.st.pool, db.first, slot, schedule) == (after.st.pool, more)
    ensures LC.IsPage(Content(db.st.pool, db.first)) ==> CanLook(db.st.pool, db.first, slot, schedule)
  {
    EE.OpenGood(db.st, PR.Fetching(db.first, schedule), db.first);
    PR.FetchKeepsContent(db.st, db.first, schedule);
    FetchThenUnpin(db.st.pool, db.first, schedule);
    var page := Content(db.st.pool, db.first);
    if LC.IsPage(page) {
      var rows :| SP.Represents(page, rows, SP.LSN(page));
      SP.GetTupleReads(page, rows, SP.LSN(page), slot);
    }
  }

  class SeqScanExecutor {
    const pool: PM.BufferPoolManager
    var currentPageId: PageId
    var currentSlot: nat

    constructor (pool: PM.BufferPoolManager, table: TableInfo)
      ensures this.pool == pool && currentPageId == table.firstPageId && currentSlot == 0
    {
      this.pool, currentPageId, currentSlot := pool, table.firstPageId, 0;
    }

    /** One call: fetch the page, look at the slot under the cursor, unpin the page clean.
        It returns true while the cursor is below the tuple count, for tombstones too. */
    method Next(schedule: seq<seq<nat>>) returns (more: bool)
      requires BufferPool.Valid(pool.Abs()) && CanLook(pool.Abs(), currentPageId, currentSlot, schedule)
      modifies this, pool, pool.pages, pool.disk
      ensures BufferPool.Valid(pool.Abs()) && currentPageId == old(currentPageId)
      ensures currentSlot == old(currentSlot) + if more then 1 else 0
      ensures (pool.Abs(), more) == Scanned(old(pool.Abs()), old(currentPageId), old(currentSlot), schedule)
      ensures old(currentPageId) == INVALID_PAGE_ID || Fetch(old(pool.Abs()), currentPageId, schedule).1.None? ==>
                !more && pool.Abs() == old(pool.Abs())
    {
      more := false;
      if currentPageId == INVALID_PAGE_ID { return; }
      FetchThenUnpin(pool.Abs(), currentPageId, schedule);
      var frame := pool.FetchPage(currentPageId, schedule);
      if frame.None? { return; }
      more := LookAtSlot(pool.pages[frame.value].data);
      if more { currentSlot := currentSlot + 1; }
      var _ := pool.UnpinPage(currentPageId, false);
    }

    /** Compares the cursor with the tuple count and reads the tuple under it. */
    method LookAtSlot(bytes: PageData) returns (more: bool)
      requires SP.Readable(bytes, currentSlot)
      ensures more <==> currentSlot < SP.TupleCount(bytes)
    {
      var page := new PO.SlottedPage(currentPageId, bytes, false);
      var count := page.U16(SP.TUPLE_COUNT_OFFSET);
      if currentSlot >= count { return false; }
      var _ := page.GetTuple(currentSlot);
      return true;
    }
  }
}
