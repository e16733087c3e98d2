/**
 The executor's insert loop and the log it leaves behind. Each insert logs the page's LSN as
 its predecessor and then stamps the page with its own, so the log holds one chain per page.
 */
module LsnChain {
  import opened Config
  import opened Log
  import opened Chains
  import SP = SlottedPage

  const MAX_LSN: nat := 0x1_0000_0000_0000_0000

  /** The page an executor works on, and the log so far; record i has LSN i + 1. */
  datatype Desk = Desk(page: PageData, log: seq<LogRecord>)

  /** One pass of the loop: None when the page refuses the tuple. Without a transaction
      nothing is logged and the page keeps its LSN. */
  function InsertRow(w: Desk, pid: PageId, txn: Option<nat>, tuple: seq<Byte>): Option<Desk> {
    match SP.InsertTuple(w.page, tuple)
    case Inserted(page, slot) =>
      if txn.None? then Some(w.(page := page))
      else
        var r := Change(txn.value, SP.LSN(page), INSERT, RID(pid, slot), tuple);
        Some(Desk(SP.SetLSN(page, |w.log| + 1), w.log + [r]))
    case _ => None
  }

  lemma InsertRowIs(w: Desk, pid: PageId, txn: Option<nat>, tuple: seq<Byte>, r: SP.InsertResult)
    requires r == SP.InsertTuple(w.page, tuple)
    ensures InsertRow(w, pid, txn, tuple) ==
            if !r.Inserted? then None
            else if txn.None? then Some(Desk(r.page, w.log))
            else Some(Desk(SP.SetLSN(r.page, |w.log| + 1),
                           w.log + [Change(txn.value, SP.LSN(r.page), INSERT, RID(pid, r.slot), tuple)]))
  {}

  /** Repeats a step up to m times and stops when it refuses. */
  function Repeat<W>(w: W, row: W -> Option<W>, m: nat): W
    decreases m
  {
    if m == 0 then w
    else
      match row(w)
      case Some(w') => Repeat(w', row, m - 1)
      case None => w
  }

  /** The loop over a batch of m rows; it stops at the first refusal. */
  function InsertRows(w: Desk, pid: PageId, txn: Option<nat>, tuple: seq<Byte>, m: nat): Desk {
    Repeat(w, (d: Desk) => InsertRow(d, pid, txn, tuple), m)
  }

  lemma InsertRowsStep(w: Desk, pid: PageId, txn: Option<nat>, tuple: seq<Byte>, m: nat)
    ensures InsertRows(w, pid, txn, tuple, 0) == w
    ensures var r := InsertRow(w, pid, txn, tuple);
            InsertRows(w, pid, txn, tuple, m + 1) == if r.Some? then InsertRows(r.value, pid, txn, tuple, m) else w
  {}

  /** After one row the rest of the batch starts from the desk it left, or there is none. */
  lemma RestOfBatch(w: Desk, pid: PageId, txn: Option<nat>, tuple: seq<Byte>, left: nat, w': Desk, rest: nat)
    requires left > 0
    requires if InsertRow(w, pid, txn, tuple).None? then w' == w && rest == 0
             else w' == InsertRow(w, pid, txn, tuple).value && rest == left - 1
    ensures InsertRows(w, pid, txn, tuple, left) == InsertRows(w', pid, txn, tuple, rest)
  {
    RepeatRest(w, (d: Desk) => InsertRow(d, pid, txn, tuple), left, w', rest);
  }

  lemma RepeatRest<W>(w: W, row: W -> Option<W>, left: nat, w': W, rest: nat)
    requires left > 0
    requires if row(w).None? then w' == w && rest == 0 else w' == row(w).value && rest == left - 1
    ensures Repeat(w, row, left) == Repeat(w', row, rest)
  {}

  lemma {:induction false} RepeatKeeps<W(!new)>(w: W, row: W -> Option<W>, m: nat, inv: (W, nat) -> bool)
    requires inv(w, m)
    requires forall d, k: nat :: k > 0 && inv(d, k) && row(d).Some? ==> inv(row(d).value, k - 1)
    ensures exists k: nat :: inv(Repeat(w, row, m), k)
    decreases m
  {
    if m > 0 && row(w).Some? {
      RepeatKeeps(row(w).value, row, m - 1, inv);
      var k: nat :| inv(Repeat(row(w).value, row, m - 1), k);
      assert inv(Repeat(w, row, m), k);
    } else {
      assert inv(Repeat(w, row, m), m);
    }
  }

  // ---------------------------------------------------------------- all pages, one log

  /** Every formatted page, and the shared log. */
  datatype World = World(pages: map<PageId, PageData>, log: seq<LogRecord>)

  datatype Event =
    | Format(pid: PageId)
    | Batch(pid: PageId, txn: nat, tuple: seq<Byte>, rows: nat)
    | Other(rec: LogRecord)

  /** Inserts go through the executor with a transaction, so every other record is none. */
  predicate Enabled(w: World, e: Event) {
    match e
    case Format(pid) => pid !in w.pages
    case Batch(pid, _, tuple, rows) =>
      pid in w.pages && !(65532 <= |tuple| <= 65535) && |w.log| + rows < MAX_LSN
    case Other(r) => r.kind != INSERT
  }

  function Step(w: World, e: Event): World
    requires Enabled(w, e)
  {
    match e
    case Format(pid) => w.(pages := w.pages[pid := SP.Init(ZeroPage())])
    case Batch(pid, txn, tuple, rows) =>
      var d := InsertRows(Desk(w.pages[pid], w.log), pid, Some(txn), tuple, rows);
      World(w.pages[pid := d.page], d.log)
    case Other(r) => w.(log := w.log + [r])
  }

  predicate IsRun(w: World, events: seq<Event>)
    decreases events
  {
    events == [] || (Enabled(w, events[0]) && IsRun(Step(w, events[0]), events[1..]))
  }

  function Run(w: World, events: seq<Event>): World
    requires IsRun(w, events)
    decreases events
  {
    if events == [] then w else Run(Step(w, events[0]), events[1..])
  }

  // ---------------------------------------------------------------- the chain of a page

  /** Redoing one insert: the same tuple again, then the record's LSN. */
  function RedoInsert(page: PageData, r: LogRecord, lsn: nat): PageData {
    if !r.Change? then page
    else
      match SP.InsertTuple(page, r.tuple)
      case Inserted(page', _) => SP.SetLSN(page', lsn)
      case _ => page
  }

  ghost predicate IsPage(page: PageData) {
    exists rows :: SP.Represents(page, rows, SP.LSN(page))
  }

  /** A slotted page whose LSN heads the chain of its own inserts, which rebuild it. */
  ghost predicate Chained(log: seq<LogRecord>, pid: PageId, page: PageData) {
    IsPage(page) && Linked(log, pid, page, SP.LSN(page), RedoInsert, SP.Init(ZeroPage()))
  }

  /** What one pass of the loop does to page and log. */
  lemma InsertRowDoes(w: Desk, pid: PageId, txn: nat, tuple: seq<Byte>)
    requires IsPage(w.page) && !(65532 <= |tuple| <= 65535) && |w.log| + 1 < MAX_LSN
    requires InsertRow(w, pid, Some(txn), tuple).Some?
    ensures var w', n := InsertRow(w, pid, Some(txn), tuple).value, |w.log|;
            && IsPage(w'.page) && SP.LSN(w'.page) == n + 1
            && |w'.log| == n + 1 && w'.log == w.log + [w'.log[n]]
            && IsInsertOn(w'.log[n], pid) && w'.log[n].prev == SP.LSN(w.page)
            && w'.page == RedoInsert(w.page, w'.log[n], n + 1)
  {
    var page := SP.InsertTuple(w.page, tuple).page;
    var rows :| SP.Represents(w.page, rows, SP.LSN(w.page));
    SP.InsertRefines(w.page, rows, SP.LSN(w.page), tuple);
    SP.SetLSNRepresents(page, rows + [SP.Row(tuple, true)], SP.LSN(page), |w.log| + 1);
    var w' := InsertRow(w, pid, Some(txn), tuple).value;
    assert SP.Represents(w'.page, rows + [SP.Row(tuple, true)], SP.LSN(w'.page));
  }

  /** With or without a transaction, a pass leaves a slotted page; without one it logs nothing
      and the page keeps its LSN. */
  lemma InsertRowKeepsPage(w: Desk, pid: PageId, txn: Option<nat>, tuple: seq<Byte>)
    requires IsPage(w.page) && !(65532 <= |tuple| <= 65535) && |w.log| + 1 < MAX_LSN
    requires InsertRow(w, pid, txn, tuple).Some?
    ensures var w' := InsertRow(w, pid, txn, tuple).value;
            && IsPage(w'.page)
            && (txn.None? ==> w'.log == w.log && SP.LSN(w'.page) == SP.LSN(w.page))
  {
    if txn.Some? {
      InsertRowDoes(w, pid, txn.value, tuple);
    } else {
      var rows :| SP.Represents(w.page, rows, SP.LSN(w.page));
      SP.InsertRefines(w.page, rows, SP.LSN(w.page), tuple);
      var page := SP.InsertTuple(w.page, tuple).page;
      assert SP.Represents(page, rows + [SP.Row(tuple, true)], SP.LSN(page));
    }
  }

  lemma InsertExtendsChain(w: Desk, pid: PageId, txn: nat, tuple: seq<Byte>)
    requires Chained(w.log, pid, w.page) && !(65532 <= |tuple| <= 65535) && |w.log| + 1 < MAX_LSN
    requires InsertRow(w, pid, Some(txn), tuple).Some?
    ensures var w' := InsertRow(w, pid, Some(txn), tuple).value;
            && Chained(w'.log, pid, w'.page) && |w'.log| == |w.log| + 1
            && w'.log[..|w.log|] == w.log && IsInsertOn(w'.log[|w.log|], pid)
  {
    InsertRowDoes(w, pid, txn, tuple);
    var w' := InsertRow(w, pid, Some(txn), tuple).value;
    InsertExtends(w.log, w'.log[|w.log|], pid, w.page, SP.LSN(w.page), RedoInsert, SP.Init(ZeroPage()));
  }

  /** The log grew by nothing but inserts on one page. */
  ghost predicate Grew(log: seq<LogRecord>, log': seq<LogRecord>, pid: PageId) {
    && |log| <= |log'| && log'[..|log|] == log
    && forall i :: |log| <= i < |log'| ==> IsInsertOn(log'[i], pid)
  }

  lemma GrewByOne(log: seq<LogRecord>, log1: seq<LogRecord>, log2: seq<LogRecord>, pid: PageId)
    requires Grew(log, log1, pid) && |log2| == |log1| + 1 && log2[..|log1|] == log1 && IsInsertOn(log2[|log1|], pid)
    ensures Grew(log, log2, pid)
  {
    assert log2[..|log|] == log2[..|log1|][..|log|];
    assert forall i :: 0 <= i < |log1| ==> log2[i] == log2[..|log1|][i];
  }

  /** The loop invariant of a batch with k rows to go, started with this log. */
  ghost predicate InBatch(log: seq<LogRecord>, pid: PageId, d: Desk, k: nat) {
    Chained(d.log, pid, d.page) && |d.log| + k < MAX_LSN && Grew(log, d.log, pid)
  }

  lemma RowKeepsBatch(log: seq<LogRecord>, pid: PageId, d: Desk, k: nat, txn: nat, tuple: seq<Byte>)
    requires k > 0 && InBatch(log, pid, d, k) && !(65532 <= |tuple| <= 65535)
    requires InsertRow(d, pid, Some(txn), tuple).Some?
    ensures InBatch(log, pid, InsertRow(d, pid, Some(txn), tuple).value, k - 1)
  {
    InsertExtendsChain(d, pid, txn, tuple);
    GrewByOne(log, d.log, InsertRow(d, pid, Some(txn), tuple).value.log, pid);
  }

  lemma RowsKeepBatch(log: seq<LogRecord>, pid: PageId, txn: nat, tuple: seq<Byte>)
    requires !(65532 <= |tuple| <= 65535)
    ensures forall d, k: nat :: k > 0 && InBatch(log, pid, d, k) && InsertRow(d, pid, Some(txn), tuple).Some? ==>
              InBatch(log, pid, InsertRow(d, pid, Some(txn), tuple).value, k - 1)
  {
    forall d, k: nat | k > 0 && InBatch(log, pid, d, k) && InsertRow(d, pid, Some(txn), tuple).Some?
      ensures InBatch(log, pid, InsertRow(d, pid, Some(txn), tuple).value, k - 1)
    {
      RowKeepsBatch(log, pid, d, k, txn, tuple);
    }
  }

  /** A batch keeps its own page chained and logs nothing but inserts on it. */
  lemma BatchKeepsChain(w: Desk, pid: PageId, txn: nat, tuple: seq<Byte>, m: nat)
    requires Chained(w.log, pid, w.page) && !(65532 <= |tuple| <= 65535) && |w.log| + m < MAX_LSN
    ensures var w' := InsertRows(w, pid, Some(txn), tuple, m);
            Chained(w'.log, pid, w'.page) && Grew(w.log, w'.log, pid)
  {
    var inv := (d: Desk, k: nat) => InBatch(w.log, pid, d, k);
    var row := (d: Desk) => InsertRow(d, pid, Some(txn), tuple);
    RowsKeepBatch(w.log, pid, txn, tuple);
    RepeatKeeps(w, row, m, inv);
  }

  /** Every page chained, and no insert in the log on a page that does not exist. */
  ghost predicate AllChained(w: World) {
    && (forall pid :: pid in w.pages ==> Chained(w.log, pid, w.pages[pid]))
    && (forall i :: 0 <= i < |w.log| && w.log[i].kind == INSERT ==> w.log[i].Change? && w.log[i].rid.pid in w.pages)
  }

  lemma FormatChained(log: seq<LogRecord>, pid: PageId)
    requires forall i :: 0 <= i < |log| ==> !IsInsertOn(log[i], pid)
    ensures Chained(log, pid, SP.Init(ZeroPage()))
  {
    SP.InitRepresents(ZeroPage());
    NoInserts(log, |log|, pid);
  }

  lemma BatchStep(w: World, e: Event)
    requires AllChained(w) && e.Batch? && Enabled(w, e)
    ensures AllChained(Step(w, e))
  {
    var w' := Step(w, e);
    BatchKeepsChain(Desk(w.pages[e.pid], w.log), e.pid, e.txn, e.tuple, e.rows);
    forall i | 0 <= i < |w'.log| && w'.log[i].kind == INSERT
      ensures w'.log[i].Change? && w'.log[i].rid.pid in w'.pages
    {
      if i < |w.log| { assert w'.log[i] == w'.log[..|w.log|][i]; }
    }
    forall q | q in w'.pages ensures Chained(w'.log, q, w'.pages[q]) {
      if q != e.pid {
        OtherRecordsKeep(w'.log, |w.log|, q, w.pages[q], SP.LSN(w.pages[q]), RedoInsert, SP.Init(ZeroPage()));
      }
    }
  }

  lemma StepChained(w: World, e: Event)
    requires AllChained(w) && Enabled(w, e)
    ensures AllChained(Step(w, e))
  {
    match e
    case Format(pid) => FormatChained(w.log, pid);
    case Batch(_, _, _, _) => BatchStep(w, e);
    case Other(r) =>
      forall q | q in w.pages ensures Chained(w.log + [r], q, w.pages[q]) {
        OtherRecordKeeps(w.log, r, q, w.pages[q], SP.LSN(w.pages[q]), RedoInsert, SP.Init(ZeroPage()));
      }
  }

  lemma {:induction false} RunChained(w: World, events: seq<Event>)
    requires AllChained(w) && IsRun(w, events)
    ensures AllChained(Run(w, events))
    decreases events
  {
    if events == [] {
    } else {
      StepChained(w, events[0]);
      RunChained(Step(w, events[0]), events[1..]);
    }
  }

  /** Over every run from an empty database, whatever the pages and transactions interleaved:
      following prev_lsn from a page's LSN visits exactly that page's INSERT records, in
      strictly falling order down to 0, and redoing them rebuilds the page byte for byte. */
  lemma ChainRebuildsPage(events: seq<Event>, pid: PageId)
    requires IsRun(World(map[], []), events) && pid in Run(World(map[], []), events).pages
    ensures var w := Run(World(map[], []), events);
            && Grounded(w.log, SP.LSN(w.pages[pid]))
            && var lsns := Chain(w.log, SP.LSN(w.pages[pid]));
            && Visits(lsns, w.log, |w.log|, pid) && Falling(lsns, |w.log|)
            && Replay(w.log, lsns, RedoInsert, SP.Init(ZeroPage())) == w.pages[pid]
  {
    RunChained(World(map[], []), events);
    var w := Run(World(map[], []), events);
    assert Chained(w.log, pid, w.pages[pid]);
    LinkedMeans(w.log, pid, w.pages[pid], SP.LSN(w.pages[pid]), RedoInsert, SP.Init(ZeroPage()));
  }
}
