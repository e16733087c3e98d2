/**
 The write-ahead log buffer: records are numbered and collected in one of two buffers that
 are swapped when a record does not fit or when a commit forces a flush. The source counts
 bytes and numbers records but leaves the byte copy itself to be written, so a buffer is
 modelled by the records whose bytes it has room for.
 */
module Log {
  import opened Config
  import SP = SlottedPage

  datatype RecordType = INVALID | INSERT | MARKDELETE | APPLYDELETE | UPDATE | BEGIN | COMMIT | ABORT

  datatype RID = RID(pid: PageId, slot: nat)

  /** The two constructors of the source: a bare record, and one that carries a tuple. */
  datatype LogRecord =
    | Control(txn: nat, prev: nat, kind: RecordType)
    | Change(txn: nat, prev: nat, kind: RecordType, rid: RID, tuple: seq<Byte>)

  const HEADER_BYTES: nat := 20
  const RID_BYTES: nat := 8
  const CAPACITY: nat := 16384

  /** The size field is 32 bits wide. */
  function Size(r: LogRecord): nat {
    if r.Control? then HEADER_BYTES else (HEADER_BYTES + RID_BYTES + |r.tuple|) % 0x1_0000_0000
  }

  datatype Entry = Entry(lsn: nat, rec: LogRecord)

  datatype LogState = LogState(nextLsn: nat, offset: nat, flushSize: nat, buffer: seq<Entry>, flushing: seq<Entry>)

  /** LSN 0 is invalid, so numbering starts at 1. */
  const EMPTY := LogState(1, 0, 0, [], [])

  function Swap(s: LogState): LogState {
    s.(flushing := s.buffer, buffer := [], flushSize := s.offset, offset := 0)
  }

  function Append(s: LogState, r: LogRecord): LogState {
    var t := if s.offset + Size(r) > CAPACITY then Swap(s) else s;
    t.(buffer := t.buffer + [Entry(t.nextLsn, r)], offset := t.offset + Size(r), nextLsn := t.nextLsn + 1)
  }

  /** A flush swaps the buffers; the records it hands to the device are then in `flushing`. */
  function Flush(s: LogState): LogState {
    Swap(s).(flushSize := 0)
  }

  // ---------------------------------------------------------------- runs

  datatype Event = Appending(rec: LogRecord) | Flushing

  function Step(s: LogState, e: Event): LogState {
    match e
    case Appending(r) => Append(s, r)
    case Flushing => Flush(s)
  }

  function Run(s: LogState, events: seq<Event>): LogState
    decreases events
  {
    if events == [] then s else Run(Step(s, events[0]), events[1..])
  }

  function TotalSize(rs: seq<LogRecord>, n: nat): nat
    requires n <= |rs|
  {
    if n == 0 then 0 else TotalSize(rs, n - 1) + Size(rs[n - 1])
  }

  /** Offset, buffer and numbering belong together. */
  ghost predicate Ok(s: LogState) {
    && s.offset <= CAPACITY
    && (s.buffer == [] ==> s.offset == 0)
    && |s.buffer| < s.nextLsn
    && forall i :: 0 <= i < |s.buffer| ==> s.buffer[i].lsn == s.nextLsn - |s.buffer| + i
  }

  ghost predicate Small(e: Event) {
    e.Appending? ==> Size(e.rec) <= CAPACITY
  }

  /** The offset is inside the buffer now and after every event. */
  ghost predicate StaysBounded(s: LogState, events: seq<Event>)
    decreases events
  {
    s.offset <= CAPACITY && (events == [] || StaysBounded(Step(s, events[0]), events[1..]))
  }

  /** Under appends and flushes in any order the offset stays in the buffer exactly if no
      record is larger than a buffer; the buffered records then carry consecutive LSNs up to
      the newest. */
  lemma {:induction false} OffsetExact(s: LogState, events: seq<Event>)
    requires Ok(s)
    ensures StaysBounded(s, events) <==> forall e :: e in events ==> Small(e)
    ensures StaysBounded(s, events) ==> Ok(Run(s, events))
    decreases events
  {
    if events == [] {
    } else {
      assert events[0] in events && forall e :: e in events <==> e == events[0] || e in events[1..];
      var t := Step(s, events[0]);
      if Small(events[0]) {
        assert Ok(t);
        OffsetExact(t, events[1..]);
      } else {
        assert t.offset > CAPACITY;
      }
    }
  }

  /** Every tuple a page accepts gives a record of at most 8204 bytes. */
  lemma AcceptedTupleIsSmall(d: PageData, rows: seq<SP.Row>, lsn: nat, tuple: seq<Byte>, txn: nat, prev: nat, rid: RID)
    requires SP.Represents(d, rows, lsn) && SP.InsertTuple(d, tuple).Inserted?
    ensures Size(Change(txn, prev, INSERT, rid, tuple)) == 28 + |tuple| <= 8204 <= CAPACITY
  {
    SP.AcceptedFits(d, rows, lsn, tuple);
    SmallTupleSize(txn, prev, rid, tuple);
  }

  lemma SmallTupleSize(txn: nat, prev: nat, rid: RID, tuple: seq<Byte>)
    requires |tuple| <= 8176
    ensures Size(Change(txn, prev, INSERT, rid, tuple)) == 28 + |tuple| <= 8204 <= CAPACITY
  {}

  /** Appends the records in turn. */
  function AppendAll(s: LogState, rs: seq<LogRecord>, n: nat): LogState
    requires n <= |rs|
  {
    if n == 0 then s else Append(AppendAll(s, rs, n - 1), rs[n - 1])
  }

  ghost predicate HoldsAll(s: LogState, t: LogState, rs: seq<LogRecord>, n: nat)
    requires n <= |rs|
  {
    && |t.buffer| == |s.buffer| + n
    && (forall i :: 0 <= i < |s.buffer| ==> t.buffer[i] == s.buffer[i])
    && (forall i :: 0 <= i < n ==> t.buffer[|s.buffer| + i] == Entry(s.nextLsn + i, rs[i]))
  }

  lemma AppendOk(s: LogState, r: LogRecord)
    requires Ok(s) && 0 < Size(r) <= CAPACITY
    ensures Ok(Append(s, r)) && Append(s, r).nextLsn == s.nextLsn + 1
  {}

  lemma HoldsOneMore(s: LogState, t: LogState, rs: seq<LogRecord>, n: nat)
    requires n < |rs| && HoldsAll(s, t, rs, n) && t.nextLsn == s.nextLsn + n
    requires t.offset + Size(rs[n]) <= CAPACITY
    ensures HoldsAll(s, Append(t, rs[n]), rs, n + 1)
  {}

  lemma {:induction false} AppendAllHolds(s: LogState, rs: seq<LogRecord>, n: nat)
    requires Ok(s) && n <= |rs| && forall r :: r in rs ==> 0 < Size(r) <= CAPACITY
    ensures var t := AppendAll(s, rs, n);
            && Ok(t) && t.nextLsn == s.nextLsn + n
            && if s.offset + TotalSize(rs, n) <= CAPACITY
               then t.offset == s.offset + TotalSize(rs, n) && HoldsAll(s, t, rs, n)
               else |t.buffer| < |s.buffer| + n
  {
    if n == 0 {
    } else {
      AppendAllHolds(s, rs, n - 1);
      assert rs[n - 1] in rs;
      var t := AppendAll(s, rs, n - 1);
      AppendOk(t, rs[n - 1]);
      if s.offset + TotalSize(rs, n) <= CAPACITY { HoldsOneMore(s, t, rs, n - 1); }
    }
  }

  /** The records a flush hands over, when `rs` were appended since the last flush. */
  function HandedOver(s: LogState, rs: seq<LogRecord>): seq<Entry> {
    Flush(AppendAll(s, rs, |rs|)).flushing
  }

  function Numbered(rs: seq<LogRecord>, from: nat): seq<Entry> {
    seq(|rs|, i requires 0 <= i < |rs| => Entry(from + i, rs[i]))
  }

  /** Hand-over: a flush passes on exactly the records appended since the previous flush, in
      consecutive LSN order, if and only if together they fit one buffer. */
  lemma HandOverExact(s: LogState, rs: seq<LogRecord>)
    requires Ok(s) && s.buffer == [] && forall r :: r in rs ==> 0 < Size(r) <= CAPACITY
    ensures HandedOver(s, rs) == Numbered(rs, s.nextLsn) <==> TotalSize(rs, |rs|) <= CAPACITY
  {
    AppendAllHolds(s, rs, |rs|);
    var t := AppendAll(s, rs, |rs|);
    if TotalSize(rs, |rs|) <= CAPACITY {
      HeldIsNumbered(s, t, rs);
    } else {
      assert |t.buffer| < |Numbered(rs, s.nextLsn)|;
    }
  }

  lemma HeldIsNumbered(s: LogState, t: LogState, rs: seq<LogRecord>)
    requires s.buffer == [] && HoldsAll(s, t, rs, |rs|)
    ensures t.buffer == Numbered(rs, s.nextLsn)
  {
    forall i | 0 <= i < |rs| ensures t.buffer[i] == Numbered(rs, s.nextLsn)[i] {
      assert t.buffer[|s.buffer| + i] == Entry(s.nextLsn + i, rs[i]);
    }
  }

  /** The buffer is empty after every flush, and holds the newest record after an append, so
      the COMMIT record of a committing transaction is always part of what it flushes. */
  lemma CommitIsHandedOver(s: LogState, r: LogRecord)
    requires Ok(s) && Size(r) <= CAPACITY
    ensures var t := Flush(Append(s, r));
            Ok(t) && t.buffer == [] && t.flushing != [] && t.flushing[|t.flushing| - 1] == Entry(s.nextLsn, r)
  {}

  // ---------------------------------------------------------------- nothing is lost

  predicate Overflows(s: LogState, r: LogRecord) { s.offset + Size(r) > CAPACITY }

  /** The records an event hands to the flush side. */
  function HandedBy(s: LogState, e: Event): seq<Entry> {
    if e.Flushing? || Overflows(s, e.rec) then Step(s, e).flushing else []
  }

  /** All records handed over in a run, one batch after the other. */
  function Handed(s: LogState, events: seq<Event>): seq<Entry>
    decreases events
  {
    if events == [] then [] else HandedBy(s, events[0]) + Handed(Step(s, events[0]), events[1..])
  }

  function Appended(events: seq<Event>): seq<LogRecord>
    decreases events
  {
    if events == [] then []
    else (if events[0].Appending? then [events[0].rec] else []) + Appended(events[1..])
  }

  /** The records appended in a run, numbered from n on. */
  function Entries(events: seq<Event>, n: nat): seq<Entry>
    decreases events
  {
    if events == [] then []
    else if events[0].Appending? then [Entry(n, events[0].rec)] + Entries(events[1..], n + 1)
    else Entries(events[1..], n)
  }

  lemma {:induction false} EntriesAt(events: seq<Event>, n: nat, i: nat)
    requires i < |Appended(events)|
    ensures |Entries(events, n)| == |Appended(events)| && Entries(events, n)[i] == Entry(n + i, Appended(events)[i])
    decreases events
  {
    var rest := events[1..];
    if events[0].Appending? {
      if i > 0 { EntriesAt(rest, n + 1, i - 1); } else { EntriesCount(rest, n + 1); }
    } else {
      EntriesAt(rest, n, i);
    }
  }

  lemma {:induction false} EntriesCount(events: seq<Event>, n: nat)
    ensures |Entries(events, n)| == |Appended(events)|
    decreases events
  {
    if events == [] {
    } else {
      EntriesCount(events[1..], if events[0].Appending? then n + 1 else n);
    }
  }

  lemma EntriesAreNumbered(events: seq<Event>, n: nat)
    ensures Entries(events, n) == Numbered(Appended(events), n)
  {
    EntriesCount(events, n);
    forall i | 0 <= i < |Appended(events)| ensures Entries(events, n)[i] == Entry(n + i, Appended(events)[i]) {
      EntriesAt(events, n, i);
    }
  }

  lemma Regroup<T>(h: seq<T>, hs: seq<T>, buffer: seq<T>, mid: seq<T>, ns: seq<T>, start: seq<T>, n: seq<T>)
    requires hs + buffer == mid + ns && h + mid == start + n
    ensures (h + hs) + buffer == start + (n + ns)
  {
    assert (h + hs) + buffer == h + (hs + buffer);
    assert h + (mid + ns) == (h + mid) + ns;
    assert (start + n) + ns == start + (n + ns);
  }

  /** The entry an event makes, if any. */
  function Made(s: LogState, e: Event): seq<Entry> {
    if e.Appending? then [Entry(s.nextLsn, e.rec)] else []
  }

  lemma StepMoves(s: LogState, e: Event)
    ensures HandedBy(s, e) + Step(s, e).buffer == s.buffer + Made(s, e)
    ensures Step(s, e).nextLsn == s.nextLsn + |Made(s, e)|
  {}

  lemma {:induction false} EntriesMove(s: LogState, events: seq<Event>)
    ensures Handed(s, events) + Run(s, events).buffer == s.buffer + Entries(events, s.nextLsn)
    decreases events
  {
    if events == [] {
    } else {
      var e, rest := events[0], events[1..];
      var t := Step(s, e);
      EntriesMove(t, rest);
      StepMoves(s, e);
      Regroup(HandedBy(s, e), Handed(t, rest), Run(t, rest).buffer, t.buffer, Entries(rest, t.nextLsn), s.buffer, Made(s, e));
      assert Entries(events, s.nextLsn) == Made(s, e) + Entries(rest, t.nextLsn);
    }
  }

  /** Over every run the batches handed over at overflows and flushes, followed by what is
      still in the buffer, are all records appended, numbered in order: none is lost between
      the buffers, none comes twice. */
  lemma NothingLost(s: LogState, events: seq<Event>)
    ensures Handed(s, events) + Run(s, events).buffer == s.buffer + Numbered(Appended(events), s.nextLsn)
  {
    EntriesMove(s, events);
    EntriesAreNumbered(events, s.nextLsn);
  }

  function Bytes(es: seq<Entry>): nat {
    if es == [] then 0 else Bytes(es[..|es| - 1]) + Size(es[|es| - 1].rec)
  }

  /** The offset is the bytes of the buffer. */
  ghost predicate Measured(s: LogState) { s.offset == Bytes(s.buffer) }

  /** An overflow hands over the whole buffer and its size in bytes, a flush the whole buffer;
      any other append leaves the flush side alone. */
  lemma StepMeasured(s: LogState, e: Event)
    requires Measured(s)
    ensures var t := Step(s, e);
            && Measured(t)
            && (e.Appending? && Overflows(s, e.rec) ==> t.flushing == s.buffer && t.flushSize == Bytes(t.flushing))
            && (e.Appending? && !Overflows(s, e.rec) ==> t.flushing == s.flushing && t.flushSize == s.flushSize)
            && (e.Flushing? ==> t.flushing == s.buffer && t.flushSize == 0 && t.buffer == [])
  {
    if e.Appending? {
      var t := Step(s, e);
      assert t.buffer[..|t.buffer| - 1] == if Overflows(s, e.rec) then [] else s.buffer;
    }
  }

  lemma {:induction false} RunMeasured(s: LogState, events: seq<Event>)
    requires Measured(s)
    ensures Measured(Run(s, events))
    decreases events
  {
    if events == [] {
    } else {
      StepMeasured(s, events[0]);
      RunMeasured(Step(s, events[0]), events[1..]);
    }
  }

  // ---------------------------------------------------------------- the log of a history

  /** What a transaction's record does to the log manager: it is appended, and a COMMIT also
      forces a flush. */
  function Record(s: LogState, r: LogRecord): LogState {
    if r.kind == COMMIT then Flush(Append(s, r)) else Append(s, r)
  }

  /** The log manager after the first n records of a history. */
  function LogAfter(log: seq<LogRecord>, n: nat): LogState
    requires n <= |log|
  {
    if n == 0 then EMPTY else Record(LogAfter(log, n - 1), log[n - 1])
  }

  lemma {:induction false} LogAfterPrefix(log: seq<LogRecord>, r: LogRecord, n: nat)
    requires n <= |log|
    ensures LogAfter(log + [r], n) == LogAfter(log, n)
  {
    if n == 0 {
    } else {
      LogAfterPrefix(log, r, n - 1);
    }
  }

  lemma LogAfterAppend(log: seq<LogRecord>, r: LogRecord)
    ensures LogAfter(log + [r], |log| + 1) == Record(LogAfter(log, |log|), r)
  {
    LogAfterPrefix(log, r, |log|);
  }

  /** Every record fits an empty buffer. */
  ghost predicate AllSmall(log: seq<LogRecord>) {
    forall r :: r in log ==> 0 < Size(r) <= CAPACITY
  }

  lemma RecordOk(s: LogState, r: LogRecord)
    requires Ok(s) && Size(r) <= CAPACITY
    ensures Ok(Record(s, r)) && Record(s, r).nextLsn == s.nextLsn + 1
    ensures r.kind == COMMIT ==> Record(s, r).buffer == []
  {
    assert Ok(Append(s, r));
  }

  /** Over every log of records that fit a buffer, the buffer never overflows. */
  lemma {:induction false} LogAfterOk(log: seq<LogRecord>, n: nat)
    requires n <= |log| && AllSmall(log)
    ensures Ok(LogAfter(log, n)) && LogAfter(log, n).nextLsn == n + 1
    ensures n > 0 && log[n - 1].kind == COMMIT ==> LogAfter(log, n).buffer == []
  {
    if n == 0 {
    } else {
      LogAfterOk(log, n - 1);
      assert log[n - 1] in log;
      RecordOk(LogAfter(log, n - 1), log[n - 1]);
    }
  }

  /** A flush starts afresh, whatever was logged before it. */
  lemma {:induction false} AfterFlush(log: seq<LogRecord>, n: nat)
    requires n <= |log|
    ensures LogAfter(log, n).nextLsn == n + 1
    ensures n == 0 || log[n - 1].kind == COMMIT ==> LogAfter(log, n).buffer == [] && LogAfter(log, n).offset == 0
  {
    if n == 0 {
    } else {
      AfterFlush(log, n - 1);
    }
  }

  /** Between two flushes the records are simply appended in turn. */
  lemma {:induction false} AppendedSince(log: seq<LogRecord>, i: nat, rs: seq<LogRecord>, n: nat)
    requires i + |rs| <= |log| && n <= |rs| && rs == log[i..i + |rs|]
    requires forall j :: 0 <= j < n ==> rs[j].kind != COMMIT
    ensures LogAfter(log, i + n) == AppendAll(LogAfter(log, i), rs, n)
  {
    if n == 0 {
    } else {
      AppendedSince(log, i, rs, n - 1);
      assert log[i + n - 1] == rs[n - 1];
    }
  }

  /** Records i to n - 1 of the history are those of one commit: the last is a COMMIT, no
      other is, and the one before the first is, if there is one. */
  ghost predicate OneCommit(log: seq<LogRecord>, i: nat, n: nat) {
    && i < n <= |log| && log[n - 1].kind == COMMIT
    && (i == 0 || log[i - 1].kind == COMMIT)
    && forall j :: i <= j < n - 1 ==> log[j].kind != COMMIT
  }

  lemma CommitFlushes(log: seq<LogRecord>, i: nat, n: nat)
    requires OneCommit(log, i, n)
    ensures LogAfter(log, n) == Flush(AppendAll(LogAfter(log, i), log[i..n], n - i))
  {
    var rs := log[i..n];
    AppendedSince(log, i, rs, n - i - 1);
    assert rs[n - i - 1] == log[n - 1];
  }

  /** Hand-over in every history: the flush of a COMMIT passes on exactly the records logged
      since the previous COMMIT, its own included, numbered by their places in the log, if
      and only if together they fit one buffer. */
  lemma CommitHandsOver(log: seq<LogRecord>, i: nat, n: nat)
    requires OneCommit(log, i, n) && AllSmall(log[i..n])
    ensures LogAfter(log, n).flushing == Numbered(log[i..n], i + 1) <==> TotalSize(log[i..n], n - i) <= CAPACITY
  {
    CommitFlushes(log, i, n);
    AfterFlush(log, i);
    HandOverExact(LogAfter(log, i), log[i..n]);
  }

  /** The boundary in bytes: a transaction that inserts two tuples has all four of its
      records handed over at its commit if and only if the tuples total at most 16288 bytes,
      that is, 16384 less two control records of 20 bytes and two times 28. */
  lemma TwoInsertsFit(a: LogRecord, b: LogRecord)
    requires a.Change? && b.Change? && a.kind == b.kind == INSERT && |a.tuple| <= 8176 && |b.tuple| <= 8176
    ensures var log := [Control(1, 0, BEGIN), a, b, Control(1, 0, COMMIT)];
            LogAfter(log, 4).flushing == [Entry(1, log[0]), Entry(2, a), Entry(3, b), Entry(4, log[3])] <==>
            |a.tuple| + |b.tuple| <= 16288
  {
    FourHandOver([Control(1, 0, BEGIN), a, b, Control(1, 0, COMMIT)]);
  }

  lemma {:induction false} FourHandOver(log: seq<LogRecord>)
    requires |log| == 4 && OneCommit(log, 0, 4) && AllSmall(log)
    ensures LogAfter(log, 4).flushing == [Entry(1, log[0]), Entry(2, log[1]), Entry(3, log[2]), Entry(4, log[3])] <==>
            Size(log[0]) + Size(log[1]) + Size(log[2]) + Size(log[3]) <= CAPACITY
  {
    FourSizes(log);
    WholeLogHandsOver(log, 4);
    assert Numbered(log, 1) == [Entry(1, log[0]), Entry(2, log[1]), Entry(3, log[2]), Entry(4, log[3])];
  }

  lemma WholeLogHandsOver(log: seq<LogRecord>, n: nat)
    requires n == |log| && OneCommit(log, 0, n) && AllSmall(log)
    ensures LogAfter(log, n).flushing == Numbered(log, 1) <==> TotalSize(log, n) <= CAPACITY
  {
    assert log[0..n] == log;
    CommitHandsOver(log, 0, n);
  }

  lemma FourSizes(log: seq<LogRecord>)
    requires |log| == 4
    ensures TotalSize(log, 4) == Size(log[0]) + Size(log[1]) + Size(log[2]) + Size(log[3])
  {
    assert TotalSize(log, 1) == TotalSize(log, 0) + Size(log[0]);
    assert TotalSize(log, 2) == TotalSize(log, 1) + Size(log[1]);
    assert TotalSize(log, 3) == TotalSize(log, 2) + Size(log[2]);
  }

  // ---------------------------------------------------------------- the log manager object

  class LogManager {
    var nextLsn: nat
    var offset: nat
    var flushSize: nat
    var buffer: seq<Entry>
    var flushing: seq<Entry>

    ghost function Abs(): LogState
      reads this
    {
      LogState(nextLsn, offset, flushSize, buffer, flushing)
    }

    constructor ()
      ensures Abs() == EMPTY
    {
      nextLsn, offset, flushSize, buffer, flushing := 1, 0, 0, [], [];
    }

    method SwapBuffers()
      modifies this
      ensures Abs() == Swap(old(Abs()))
    {
      flushing, buffer := buffer, [];
      flushSize := offset;
      offset := 0;
    }

    method AppendLogRecord(r: LogRecord) returns (lsn: nat)
      modifies this
      ensures lsn == old(nextLsn) && Abs() == Append(old(Abs()), r)
      ensures old(Ok(Abs())) && Size(r) <= CAPACITY ==> Ok(Abs())
    {
      if offset + Size(r) > CAPACITY {
        SwapBuffers();
      }
      buffer := buffer + [Entry(nextLsn, r)];
      offset := offset + Size(r);
      lsn := nextLsn;
      nextLsn := nextLsn + 1;
    }

    method FlushLog()
      modifies this
      ensures Abs() == Flush(old(Abs()))
      ensures old(Ok(Abs())) ==> Ok(Abs())
    {
      SwapBuffers();
      flushSize := 0;
    }
  }
}
