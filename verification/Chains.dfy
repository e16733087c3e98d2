/**
 Chains in the log, whatever a page is made of: `redo` says what one record does to a page,
 and `base` is the page before its first record.
 */
module Chains {
  import opened Config
  import opened Log

  predicate IsInsertOn(r: LogRecord, pid: PageId) {
    r.Change? && r.kind == INSERT && r.rid.pid == pid
  }

  /** Following prev_lsn from here falls at every record and ends at LSN 0. */
  predicate Grounded(log: seq<LogRecord>, lsn: nat)
    decreases lsn
  {
    lsn == 0 || (lsn <= |log| && log[lsn - 1].prev < lsn && Grounded(log, log[lsn - 1].prev))
  }

  /** The records met on the way. */
  function Chain(log: seq<LogRecord>, lsn: nat): seq<nat>
    requires Grounded(log, lsn)
    decreases lsn
  {
    if lsn == 0 then [] else [lsn] + Chain(log, log[lsn - 1].prev)
  }

  /** The reference: LSNs of the INSERT records on a page among the first n, newest first. */
  function PageInserts(log: seq<LogRecord>, n: nat, pid: PageId): seq<nat>
    requires n <= |log|
  {
    if n == 0 then []
    else if IsInsertOn(log[n - 1], pid) then [n] + PageInserts(log, n - 1, pid)
    else PageInserts(log, n - 1, pid)
  }

  type Redo = (PageData, LogRecord, nat) -> PageData

  /** Redoes the listed records on the base page, the last of the list first. */
  function Replay(log: seq<LogRecord>, lsns: seq<nat>, redo: Redo, base: PageData): PageData
    decreases lsns
  {
    if lsns == [] then base
    else
      var page := Replay(log, lsns[1..], redo, base);
      if 1 <= lsns[0] <= |log| then redo(page, log[lsns[0] - 1], lsns[0]) else page
  }

  /** Strictly falling numbers, none above n. */
  ghost predicate Falling(lsns: seq<nat>, n: nat) {
    && (forall i :: 0 <= i < |lsns| ==> lsns[i] <= n)
    && (forall i, j :: 0 <= i < j < |lsns| ==> lsns[i] > lsns[j])
  }

  /** The list holds exactly the inserts on the page among the first n records. */
  ghost predicate Visits(lsns: seq<nat>, log: seq<LogRecord>, n: nat, pid: PageId)
    requires n <= |log|
  {
    forall lsn :: lsn in lsns <==> 1 <= lsn <= n && IsInsertOn(log[lsn - 1], pid)
  }

  /** The reference list is exact: strictly falling, and complete. */
  lemma {:induction false} PageInsertsExact(log: seq<LogRecord>, n: nat, pid: PageId)
    requires n <= |log|
    ensures Falling(PageInserts(log, n, pid), n)
    ensures Visits(PageInserts(log, n, pid), log, n, pid)
  {
    if n == 0 {
    } else {
      PageInsertsExact(log, n - 1, pid);
      var front, all := PageInserts(log, n - 1, pid), PageInserts(log, n, pid);
      if IsInsertOn(log[n - 1], pid) {
        assert all == [n] + front;
      } else {
        assert all == front;
      }
    }
  }

  lemma {:induction false} ChainPrefix(log: seq<LogRecord>, r: LogRecord, lsn: nat)
    requires Grounded(log, lsn)
    ensures Grounded(log + [r], lsn) && Chain(log + [r], lsn) == Chain(log, lsn)
    decreases lsn
  {
    if lsn == 0 {
    } else {
      ChainPrefix(log, r, log[lsn - 1].prev);
    }
  }

  lemma {:induction false} PageInsertsPrefix(log: seq<LogRecord>, r: LogRecord, n: nat, pid: PageId)
    requires n <= |log|
    ensures PageInserts(log + [r], n, pid) == PageInserts(log, n, pid)
  {
    if n == 0 {
    } else {
      PageInsertsPrefix(log, r, n - 1, pid);
    }
  }

  lemma {:induction false} ReplayPrefix(log: seq<LogRecord>, r: LogRecord, lsns: seq<nat>, redo: Redo, base: PageData)
    requires forall i :: 0 <= i < |lsns| ==> lsns[i] <= |log|
    ensures Replay(log + [r], lsns, redo, base) == Replay(log, lsns, redo, base)
    decreases lsns
  {
    if lsns == [] {
    } else {
      ReplayPrefix(log, r, lsns[1..], redo, base);
    }
  }

  /** The LSN starts a chain down to 0 of exactly the page's own inserts, and those rebuild it. */
  ghost predicate Linked(log: seq<LogRecord>, pid: PageId, page: PageData, lsn: nat, redo: Redo, base: PageData) {
    && lsn <= |log| && Grounded(log, lsn)
    && Chain(log, lsn) == PageInserts(log, |log|, pid)
    && Replay(log, PageInserts(log, |log|, pid), redo, base) == page
  }

  /** A record that is no insert on the page leaves its chain alone. */
  lemma OtherRecordKeeps(log: seq<LogRecord>, r: LogRecord, pid: PageId, page: PageData, lsn: nat, redo: Redo, base: PageData)
    requires Linked(log, pid, page, lsn, redo, base) && !IsInsertOn(r, pid)
    ensures Linked(log + [r], pid, page, lsn, redo, base)
  {
    ChainPrefix(log, r, lsn);
    PageInsertsPrefix(log, r, |log|, pid);
    PageInsertsExact(log, |log|, pid);
    ReplayPrefix(log, r, PageInserts(log, |log|, pid), redo, base);
  }

  lemma {:induction false} OtherRecordsKeep(log: seq<LogRecord>, n: nat, pid: PageId, page: PageData, lsn: nat, redo: Redo, base: PageData)
    requires n <= |log| && Linked(log[..n], pid, page, lsn, redo, base)
    requires forall i :: n <= i < |log| ==> !IsInsertOn(log[i], pid)
    ensures Linked(log, pid, page, lsn, redo, base)
    decreases |log| - n
  {
    if n < |log| {
      OtherRecordKeeps(log[..n], log[n], pid, page, lsn, redo, base);
      assert log[..n] + [log[n]] == log[..n + 1];
      OtherRecordsKeep(log, n + 1, pid, page, lsn, redo, base);
    } else {
      assert log[..n] == log;
    }
  }

  /** A record that names a grounded LSN as its predecessor heads a chain one longer. */
  lemma ChainExtends(log: seq<LogRecord>, r: LogRecord)
    requires r.prev <= |log| && Grounded(log, r.prev)
    ensures Grounded(log + [r], |log| + 1) && Chain(log + [r], |log| + 1) == [|log| + 1] + Chain(log, r.prev)
  {
    ChainPrefix(log, r, r.prev);
    assert (log + [r])[|log|] == r;
  }

  lemma PageInsertsExtend(log: seq<LogRecord>, r: LogRecord, pid: PageId)
    requires IsInsertOn(r, pid)
    ensures PageInserts(log + [r], |log| + 1, pid) == [|log| + 1] + PageInserts(log, |log|, pid)
    ensures forall i :: 0 <= i < |PageInserts(log, |log|, pid)| ==> PageInserts(log, |log|, pid)[i] <= |log|
  {
    PageInsertsPrefix(log, r, |log|, pid);
    PageInsertsExact(log, |log|, pid);
    assert (log + [r])[|log|] == r;
  }

  lemma ReplayExtends(log: seq<LogRecord>, r: LogRecord, lsns: seq<nat>, redo: Redo, base: PageData)
    requires forall i :: 0 <= i < |lsns| ==> lsns[i] <= |log|
    ensures Replay(log + [r], [|log| + 1] + lsns, redo, base) == redo(Replay(log, lsns, redo, base), r, |log| + 1)
  {
    ReplayPrefix(log, r, lsns, redo, base);
    assert ([|log| + 1] + lsns)[1..] == lsns;
    assert (log + [r])[|log|] == r;
  }

  /** An insert that names the old LSN as its predecessor extends the chain by itself. */
  lemma InsertExtends(log: seq<LogRecord>, r: LogRecord, pid: PageId, page: PageData, lsn: nat, redo: Redo, base: PageData)
    requires Linked(log, pid, page, lsn, redo, base) && IsInsertOn(r, pid) && r.prev == lsn
    ensures Linked(log + [r], pid, redo(page, r, |log| + 1), |log| + 1, redo, base)
  {
    PageInsertsExtend(log, r, pid);
    ChainExtends(log, r);
    ReplayExtends(log, r, PageInserts(log, |log|, pid), redo, base);
  }

  lemma {:induction false} NoInserts(log: seq<LogRecord>, n: nat, pid: PageId)
    requires n <= |log| && forall i :: 0 <= i < n ==> !IsInsertOn(log[i], pid)
    ensures PageInserts(log, n, pid) == []
  {
    if n == 0 {
    } else {
      NoInserts(log, n - 1, pid);
    }
  }

  /** The chain ends at 0, visits exactly the page's inserts, newest first, and rebuilds the page. */
  lemma LinkedMeans(log: seq<LogRecord>, pid: PageId, page: PageData, lsn: nat, redo: Redo, base: PageData)
    requires Linked(log, pid, page, lsn, redo, base)
    ensures Grounded(log, lsn)
    ensures var lsns := Chain(log, lsn);
            && Visits(lsns, log, |log|, pid) && Falling(lsns, |log|)
            && Replay(log, lsns, redo, base) == page
  {
    PageInsertsExact(log, |log|, pid);
  }
}
