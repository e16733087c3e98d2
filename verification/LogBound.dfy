/**
 The bound on the log buffer, discharged for the records the source really writes: control
 records, and inserts of tuples that a page has accepted.
 */
module LogBound {
  import opened Config
  import opened Log
  import LC = LsnChain
  import SP = SlottedPage

  /** A row that went in leaves a record of at most 8204 bytes, or none. */
  lemma RowKeepsSmall(w: LC.Desk, pid: PageId, txn: Option<nat>, tuple: seq<Byte>)
    requires LC.IsPage(w.page) && AllSmall(w.log) && LC.InsertRow(w, pid, txn, tuple).Some?
    ensures AllSmall(LC.InsertRow(w, pid, txn, tuple).value.log)
  {
    var rows :| SP.Represents(w.page, rows, SP.LSN(w.page));
    LC.InsertRowIs(w, pid, txn, tuple, SP.InsertTuple(w.page, tuple));
    var r := SP.InsertTuple(w.page, tuple);
    if txn.Some? {
      AcceptedTupleIsSmall(w.page, rows, SP.LSN(w.page), tuple, txn.value, SP.LSN(r.page), RID(pid, r.slot));
    }
  }

  ghost predicate SmallDesk(d: LC.Desk, k: nat) {
    LC.IsPage(d.page) && AllSmall(d.log) && |d.log| + k < LC.MAX_LSN
  }

  lemma RowKeepsSmallDesk(d: LC.Desk, k: nat, pid: PageId, txn: Option<nat>, tuple: seq<Byte>)
    requires k > 0 && SmallDesk(d, k) && !(65532 <= |tuple| <= 65535) && LC.InsertRow(d, pid, txn, tuple).Some?
    ensures SmallDesk(LC.InsertRow(d, pid, txn, tuple).value, k - 1)
  {
    RowKeepsSmall(d, pid, txn, tuple);
    LC.InsertRowKeepsPage(d, pid, txn, tuple);
    LC.InsertRowIs(d, pid, txn, tuple, SP.InsertTuple(d.page, tuple));
  }

  /** So does a whole batch, with a transaction or without. */
  lemma BatchKeepsSmall(w: LC.Desk, pid: PageId, txn: Option<nat>, tuple: seq<Byte>, m: nat)
    requires SmallDesk(w, m) && !(65532 <= |tuple| <= 65535)
    ensures AllSmall(LC.InsertRows(w, pid, txn, tuple, m).log)
  {
    var row := (d: LC.Desk) => LC.InsertRow(d, pid, txn, tuple);
    forall d, k: nat | k > 0 && SmallDesk(d, k) && row(d).Some? ensures SmallDesk(row(d).value, k - 1) {
      assert row(d) == LC.InsertRow(d, pid, txn, tuple);
      RowKeepsSmallDesk(d, k, pid, txn, tuple);
    }
    LC.RepeatKeeps(w, row, m, SmallDesk);
  }

  /** The records beside the executor's are BEGIN, COMMIT and ABORT, which carry no tuple. */
  ghost predicate OnlyControl(events: seq<LC.Event>) {
    forall e :: e in events && e.Other? ==> e.rec.Control?
  }

  lemma StepKeepsSmall(w: LC.World, e: LC.Event)
    requires LC.AllChained(w) && AllSmall(w.log) && LC.Enabled(w, e) && (e.Other? ==> e.rec.Control?)
    ensures AllSmall(LC.Step(w, e).log)
  {
    if e.Batch? {
      assert LC.Chained(w.log, e.pid, w.pages[e.pid]);
      BatchKeepsSmall(LC.Desk(w.pages[e.pid], w.log), e.pid, Some(e.txn), e.tuple, e.rows);
    }
  }

  lemma {:induction false} RunKeepsSmall(w: LC.World, events: seq<LC.Event>)
    requires LC.AllChained(w) && AllSmall(w.log) && LC.IsRun(w, events) && OnlyControl(events)
    ensures AllSmall(LC.Run(w, events).log)
    decreases events
  {
    if events == [] {
    } else {
      assert events[0] in events;
      StepKeepsSmall(w, events[0]);
      LC.StepChained(w, events[0]);
      RunKeepsSmall(LC.Step(w, events[0]), events[1..]);
    }
  }

  /** Over every run of batches and control records from an empty database, with no condition
      on sizes: at no point of the log does the buffer hold more than 16384 bytes, LSNs count
      the records, and every COMMIT hands over exactly the records since the previous one if
      and only if those fit one buffer. */
  lemma RunStaysBounded(events: seq<LC.Event>)
    requires LC.IsRun(LC.World(map[], []), events) && OnlyControl(events)
    ensures var log := LC.Run(LC.World(map[], []), events).log;
            && (forall n: nat :: n <= |log| ==> Ok(LogAfter(log, n)) && LogAfter(log, n).nextLsn == n + 1)
            && (forall i: nat, n: nat :: OneCommit(log, i, n) ==>
                  (LogAfter(log, n).flushing == Numbered(log[i..n], i + 1) <==>
                   TotalSize(log[i..n], n - i) <= CAPACITY))
  {
    RunKeepsSmall(LC.World(map[], []), events);
    var log := LC.Run(LC.World(map[], []), events).log;
    forall n: nat | n <= |log| ensures Ok(LogAfter(log, n)) && LogAfter(log, n).nextLsn == n + 1 {
      LogAfterOk(log, n);
    }
    forall i: nat, n: nat | OneCommit(log, i, n)
      ensures LogAfter(log, n).flushing == Numbered(log[i..n], i + 1) <==> TotalSize(log[i..n], n - i) <= CAPACITY
    {
      CommitHandsOver(log, i, n);
    }
  }

  /** One row of 8176 bytes fills an empty page and leaves a record of 8204 bytes. */
  lemma BigRowStep(w: LC.World, pid: PageId, tuple: seq<Byte>)
    requires pid in w.pages && w.pages[pid] == SP.Init(ZeroPage()) && |tuple| == 8176 && |w.log| < 10
    ensures LC.Enabled(w, LC.Batch(pid, 1, tuple, 1))
    ensures var w' := LC.Step(w, LC.Batch(pid, 1, tuple, 1));
            && w'.log == w.log + [Change(1, 0, INSERT, RID(pid, 0), tuple)]
            && forall q :: q in w.pages && q != pid ==> q in w'.pages && w'.pages[q] == w.pages[q]
  {
    var d := LC.Desk(w.pages[pid], w.log);
    SP.InitRepresents(ZeroPage());
    SP.InsertRefines(d.page, [], 0, tuple);
    LC.InsertRowsStep(d, pid, Some(1), tuple, 0);
    LC.InsertRowsStep(LC.InsertRow(d, pid, Some(1), tuple).value, pid, Some(1), tuple, 0);
  }

  lemma RunStarts(w: LC.World, e: LC.Event, es: seq<LC.Event>)
    requires LC.Enabled(w, e) && LC.IsRun(LC.Step(w, e), es)
    ensures LC.IsRun(w, [e] + es) && LC.Run(w, [e] + es) == LC.Run(LC.Step(w, e), es)
  {
    assert ([e] + es)[1..] == es;
  }

  /** A transaction that inserts one such row into each of two pages, and its log. */
  function TwoBigRows(tuple: seq<Byte>): seq<LC.Event> {
    [LC.Format(0)] + ([LC.Format(1)] + ([LC.Other(Control(1, 0, BEGIN))] + RowsAndCommit(tuple)))
  }

  function RowsAndCommit(tuple: seq<Byte>): seq<LC.Event> {
    [LC.Batch(0, 1, tuple, 1)] + ([LC.Batch(1, 1, tuple, 1)] + [LC.Other(Control(1, 0, COMMIT))])
  }

  function BigLog(tuple: seq<Byte>): seq<LogRecord> {
    [Control(1, 0, BEGIN), Change(1, 0, INSERT, RID(0, 0), tuple), Change(1, 0, INSERT, RID(1, 0), tuple),
     Control(1, 0, COMMIT)]
  }

  lemma CommitRun(w: LC.World)
    ensures LC.IsRun(w, [LC.Other(Control(1, 0, COMMIT))])
    ensures LC.Run(w, [LC.Other(Control(1, 0, COMMIT))]).log == w.log + [Control(1, 0, COMMIT)]
  {
    var commit := LC.Other(Control(1, 0, COMMIT));
    assert [commit][1..] == [] && LC.IsRun(LC.Step(w, commit), []);
  }

  lemma RowsAndCommitRun(w: LC.World, tuple: seq<Byte>)
    requires |tuple| == 8176 && w.log == [Control(1, 0, BEGIN)]
    requires 0 in w.pages && w.pages[0] == SP.Init(ZeroPage()) && 1 in w.pages && w.pages[1] == SP.Init(ZeroPage())
    ensures LC.IsRun(w, RowsAndCommit(tuple)) && LC.Run(w, RowsAndCommit(tuple)).log == BigLog(tuple)
  {
    var row0, row1 := LC.Batch(0, 1, tuple, 1), LC.Batch(1, 1, tuple, 1);
    BigRowStep(w, 0, tuple);
    var w1 := LC.Step(w, row0);
    BigRowStep(w1, 1, tuple);
    var w2 := LC.Step(w1, row1);
    CommitRun(w2);
    RunStarts(w1, row1, [LC.Other(Control(1, 0, COMMIT))]);
    RunStarts(w, row0, [row1] + [LC.Other(Control(1, 0, COMMIT))]);
  }

  lemma TwoBigRowsRun(tuple: seq<Byte>, rest: seq<LC.Event>)
    requires |tuple| == 8176 && rest == RowsAndCommit(tuple)
    ensures LC.IsRun(LC.World(map[], []), TwoBigRows(tuple))
    ensures LC.Run(LC.World(map[], []), TwoBigRows(tuple)).log == BigLog(tuple)
  {
    var begin := LC.Other(Control(1, 0, BEGIN));
    var w1 := LC.Step(LC.World(map[], []), LC.Format(0));
    var w2 := LC.Step(w1, LC.Format(1));
    var w3 := LC.Step(w2, begin);
    RowsAndCommitRun(w3, tuple);
    RunStarts(w2, begin, rest);
    RunStarts(w1, LC.Format(1), [begin] + rest);
    RunStarts(LC.World(map[], []), LC.Format(0), [LC.Format(1)] + ([begin] + rest));
  }

  /** Its commit hands over two of its four records; the other two were swapped out. */
  lemma CommitLosesRecords(tuple: seq<Byte>)
    requires |tuple| == 8176
    ensures LC.IsRun(LC.World(map[], []), TwoBigRows(tuple))
    ensures LC.Run(LC.World(map[], []), TwoBigRows(tuple)).log == BigLog(tuple)
    ensures LogAfter(BigLog(tuple), 4).flushing == [Entry(3, BigLog(tuple)[2]), Entry(4, BigLog(tuple)[3])]
  {
    TwoBigRowsRun(tuple, RowsAndCommit(tuple));
    var log := BigLog(tuple);
    assert LogAfter(log, 1) == Record(LogAfter(log, 0), log[0]);
    assert LogAfter(log, 2) == Record(LogAfter(log, 1), log[1]);
    assert LogAfter(log, 3) == Record(LogAfter(log, 2), log[2]);
    assert LogAfter(log, 4) == Record(LogAfter(log, 3), log[3]);
  }
}
