/**
 The record ids in the log: over every run of the executor each INSERT record names the slot
 where its tuple can be read back.
 */
module Rids {
  import opened Config
  import opened Chains
  import opened Log
  import LC = LsnChain
  import SP = SlottedPage

  /** Each insert on the page names the row of its tuple, later ones later rows. */
  ghost predicate RowsNamed(log: seq<LogRecord>, pid: PageId, rows: seq<SP.Row>) {
    && (forall i :: 0 <= i < |log| && IsInsertOn(log[i], pid) ==>
          log[i].rid.slot < |rows| && rows[log[i].rid.slot] == SP.Row(log[i].tuple, true))
    && (forall i, j :: 0 <= i < j < |log| && IsInsertOn(log[i], pid) && IsInsertOn(log[j], pid) ==>
          log[i].rid.slot < log[j].rid.slot)
  }

  ghost predicate Named(log: seq<LogRecord>, pid: PageId, page: PageData) {
    exists rows :: SP.Represents(page, rows, SP.LSN(page)) && RowsNamed(log, pid, rows)
  }

  lemma NewRowNamed(log: seq<LogRecord>, pid: PageId, rows: seq<SP.Row>, r: LogRecord)
    requires RowsNamed(log, pid, rows) && IsInsertOn(r, pid) && r.rid.slot == |rows|
    ensures RowsNamed(log + [r], pid, rows + [SP.Row(r.tuple, true)])
  {}

  /** One row of a batch: its record names the slot it went to. */
  lemma RowKeepsNamed(w: LC.Desk, pid: PageId, txn: nat, tuple: seq<Byte>)
    requires Named(w.log, pid, w.page) && !(65532 <= |tuple| <= 65535) && |w.log| + 1 < LC.MAX_LSN
    requires LC.InsertRow(w, pid, Some(txn), tuple).Some?
    ensures var w' := LC.InsertRow(w, pid, Some(txn), tuple).value;
            Named(w'.log, pid, w'.page) && |w'.log| == |w.log| + 1
  {
    var rows :| SP.Represents(w.page, rows, SP.LSN(w.page)) && RowsNamed(w.log, pid, rows);
    var r := SP.InsertTuple(w.page, tuple);
    LC.InsertRowIs(w, pid, Some(txn), tuple, r);
    SP.InsertRefines(w.page, rows, SP.LSN(w.page), tuple);
    var rows' := rows + [SP.Row(tuple, true)];
    SP.SetLSNRepresents(r.page, rows', SP.LSN(r.page), |w.log| + 1);
    NewRowNamed(w.log, pid, rows, Change(txn, SP.LSN(r.page), INSERT, RID(pid, r.slot), tuple));
    var w' := LC.InsertRow(w, pid, Some(txn), tuple).value;
    assert SP.Represents(w'.page, rows', SP.LSN(w'.page)) && RowsNamed(w'.log, pid, rows');
  }

  ghost predicate NamedDesk(d: LC.Desk, k: nat, pid: PageId) {
    Named(d.log, pid, d.page) && |d.log| + k < LC.MAX_LSN
  }

  lemma RowsKeepNamed(pid: PageId, txn: nat, tuple: seq<Byte>)
    requires !(65532 <= |tuple| <= 65535)
    ensures forall d, k: nat :: k > 0 && NamedDesk(d, k, pid) && LC.InsertRow(d, pid, Some(txn), tuple).Some? ==>
              NamedDesk(LC.InsertRow(d, pid, Some(txn), tuple).value, k - 1, pid)
  {
    forall d, k: nat | k > 0 && NamedDesk(d, k, pid) && LC.InsertRow(d, pid, Some(txn), tuple).Some?
      ensures NamedDesk(LC.InsertRow(d, pid, Some(txn), tuple).value, k - 1, pid)
    {
      RowKeepsNamed(d, pid, txn, tuple);
    }
  }

  lemma BatchKeepsNamed(w: LC.Desk, pid: PageId, txn: nat, tuple: seq<Byte>, m: nat)
    requires NamedDesk(w, m, pid) && !(65532 <= |tuple| <= 65535)
    ensures var w' := LC.InsertRows(w, pid, Some(txn), tuple, m); Named(w'.log, pid, w'.page)
  {
    var row := (d: LC.Desk) => LC.InsertRow(d, pid, Some(txn), tuple);
    var inv := (d: LC.Desk, k: nat) => NamedDesk(d, k, pid);
    RowsKeepNamed(pid, txn, tuple);
    LC.RepeatKeeps(w, row, m, inv);
  }

  /** Records that are no insert on the page change nothing for it. */
  lemma OthersKeepNamed(log: seq<LogRecord>, log': seq<LogRecord>, pid: PageId, page: PageData)
    requires Named(log, pid, page) && |log| <= |log'| && log'[..|log|] == log
    requires forall i :: |log| <= i < |log'| ==> !IsInsertOn(log'[i], pid)
    ensures Named(log', pid, page)
  {
    var rows :| SP.Represents(page, rows, SP.LSN(page)) && RowsNamed(log, pid, rows);
    assert forall i :: 0 <= i < |log| ==> log'[i] == log'[..|log|][i];
    assert RowsNamed(log', pid, rows);
  }

  lemma GrewKeepsNamed(log: seq<LogRecord>, log': seq<LogRecord>, pid: PageId, q: PageId, page: PageData)
    requires LC.Grew(log, log', pid) && q != pid && Named(log, q, page)
    ensures Named(log', q, page)
  {
    OthersKeepNamed(log, log', q, page);
  }

  lemma FormatNamed(log: seq<LogRecord>, pid: PageId)
    requires forall i :: 0 <= i < |log| ==> !IsInsertOn(log[i], pid)
    ensures Named(log, pid, SP.Init(ZeroPage()))
  {
    SP.InitRepresents(ZeroPage());
    assert RowsNamed(log, pid, []);
  }

  ghost predicate AllNamed(w: LC.World) {
    forall pid :: pid in w.pages ==> Named(w.log, pid, w.pages[pid])
  }

  lemma BatchKeepsBoth(w: LC.Desk, pid: PageId, txn: nat, tuple: seq<Byte>, m: nat)
    requires LC.Chained(w.log, pid, w.page) && NamedDesk(w, m, pid) && !(65532 <= |tuple| <= 65535)
    ensures var w' := LC.InsertRows(w, pid, Some(txn), tuple, m);
            Named(w'.log, pid, w'.page) && LC.Grew(w.log, w'.log, pid)
  {
    LC.BatchKeepsChain(w, pid, txn, tuple, m);
    BatchKeepsNamed(w, pid, txn, tuple, m);
  }

  lemma BatchNamed(w: LC.World, e: LC.Event)
    requires AllNamed(w) && LC.AllChained(w) && e.Batch? && LC.Enabled(w, e)
    ensures AllNamed(LC.Step(w, e))
  {
    var w' := LC.Step(w, e);
    var d := LC.Desk(w.pages[e.pid], w.log);
    BatchKeepsBoth(d, e.pid, e.txn, e.tuple, e.rows);
    forall q | q in w'.pages ensures Named(w'.log, q, w'.pages[q]) {
      if q != e.pid { GrewKeepsNamed(w.log, w'.log, e.pid, q, w.pages[q]); }
    }
  }

  lemma StepNamed(w: LC.World, e: LC.Event)
    requires AllNamed(w) && LC.AllChained(w) && LC.Enabled(w, e)
    ensures AllNamed(LC.Step(w, e))
  {
    match e
    case Format(pid) => FormatNamed(w.log, pid);
    case Batch(_, _, _, _) => BatchNamed(w, e);
    case Other(r) =>
      forall q | q in w.pages ensures Named(w.log + [r], q, w.pages[q]) {
        OthersKeepNamed(w.log, w.log + [r], q, w.pages[q]);
      }
  }

  lemma {:induction false} RunNamed(w: LC.World, events: seq<LC.Event>)
    requires AllNamed(w) && LC.AllChained(w) && LC.IsRun(w, events)
    ensures AllNamed(LC.Run(w, events)) && LC.AllChained(LC.Run(w, events))
    decreases events
  {
    if events == [] {
    } else {
      StepNamed(w, events[0]);
      LC.StepChained(w, events[0]);
      RunNamed(LC.Step(w, events[0]), events[1..]);
    }
  }

  /** Over every run from an empty database: the record id in an INSERT record reads the
      record's tuple back from its page, and no two INSERT records have the same id. */
  lemma RidsReadBack(events: seq<LC.Event>, i: nat)
    requires LC.IsRun(LC.World(map[], []), events) && i < |LC.Run(LC.World(map[], []), events).log|
    requires LC.Run(LC.World(map[], []), events).log[i].kind == INSERT
    ensures var w := LC.Run(LC.World(map[], []), events);
            var r := w.log[i];
            && r.Change? && r.rid.pid in w.pages
            && SP.Readable(w.pages[r.rid.pid], r.rid.slot)
            && SP.GetTuple(w.pages[r.rid.pid], r.rid.slot) == (if r.tuple == [] then None else Some(r.tuple))
            && forall j :: 0 <= j < |w.log| && j != i && w.log[j].kind == INSERT && w.log[j].Change? ==> w.log[j].rid != r.rid
  {
    RunNamed(LC.World(map[], []), events);
    var w := LC.Run(LC.World(map[], []), events);
    var r := w.log[i];
    var page := w.pages[r.rid.pid];
    assert Named(w.log, r.rid.pid, page);
    var rows :| SP.Represents(page, rows, SP.LSN(page)) && RowsNamed(w.log, r.rid.pid, rows);
    assert IsInsertOn(r, r.rid.pid);
    SP.GetTupleReads(page, rows, SP.LSN(page), r.rid.slot);
    forall j | 0 <= j < |w.log| && j != i && w.log[j].kind == INSERT && w.log[j].Change? ensures w.log[j].rid != r.rid {
      if w.log[j].rid.pid == r.rid.pid { assert IsInsertOn(w.log[j], r.rid.pid); }
    }
  }
}
