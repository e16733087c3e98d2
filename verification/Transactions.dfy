/**
 Transactions, epochs and the log of their records, as one state machine. Begin is split
 where the source is not atomic: load the global epoch, raise its counter, log BEGIN. Other
 transactions may take steps in between.
 */
module Transactions {
  import opened Config
  import opened Log

  const MAX_EPOCHS: nat := 1024

  datatype TxnState = ACTIVE | COMMITTED | ABORTED

  datatype Stage = Loaded | Entered | Open

  /** `finishes` is history: how many commits and aborts took effect. */
  datatype Txn = Txn(state: TxnState, epoch: nat, stage: Stage, writeSet: seq<nat>, finishes: nat)

  /** Transaction ids are 1, 2, ...: id i is txns[i - 1]. LSNs likewise number the log, which
      is all records ever appended; `wal` is the state of the log manager. */
  datatype System = System(txns: seq<Txn>, globalEpoch: nat, counters: seq<int>, log: seq<LogRecord>, wal: LogState)

  datatype Event =
    | BeginLoad
    | BeginEnter(id: nat)
    | BeginLog(id: nat)
    | Insert(id: nat, prev: nat, rid: RID, tuple: seq<Byte>)
    | Commit(id: nat)
    | Abort(id: nat)
    | Advance

  function Initial(): System { System([], 1, seq(MAX_EPOCHS, i => 0), [], EMPTY) }

  predicate Known(s: System, id: nat) { 1 <= id <= |s.txns| }

  function TxnOf(s: System, id: nat): Txn
    requires Known(s, id)
  {
    s.txns[id - 1]
  }

  /** Callers hold a transaction once Begin has returned it. Nothing forbids finishing one
      twice, or inserting after the finish. */
  predicate Enabled(s: System, e: Event) {
    |s.counters| == MAX_EPOCHS &&
    match e
    case BeginLoad => true
    case BeginEnter(id) => Known(s, id) && s.txns[id - 1].stage == Loaded
    case BeginLog(id) => Known(s, id) && s.txns[id - 1].stage == Entered
    case Insert(id, _, _, _) => Known(s, id) && s.txns[id - 1].stage == Open
    case Commit(id) => Known(s, id) && s.txns[id - 1].stage == Open
    case Abort(id) => Known(s, id) && s.txns[id - 1].stage == Open
    case Advance => true
  }

  function Bump(counters: seq<int>, epoch: nat, delta: int): seq<int>
    requires |counters| == MAX_EPOCHS
  {
    var b := epoch % 1024;
    counters[b := counters[b] + delta]
  }

  /** Ending a transaction with the given state: log the fact, leave the epoch. */
  function Finish(s: System, id: nat, state: TxnState, kind: RecordType): System
    requires Known(s, id) && |s.counters| == MAX_EPOCHS
  {
    var t := s.txns[id - 1];
    s.(txns := s.txns[id - 1 := t.(state := state, finishes := t.finishes + 1)],
       counters := Bump(s.counters, t.epoch, -1),
       log := s.log + [Control(id, 0, kind)],
       wal := Record(s.wal, Control(id, 0, kind)))
  }

  function LogChange(s: System, id: nat, r: LogRecord, stage: Stage): System
    requires Known(s, id)
  {
    var t := s.txns[id - 1];
    s.(txns := s.txns[id - 1 := t.(writeSet := t.writeSet + [|s.log| + 1], stage := stage)],
       log := s.log + [r], wal := Record(s.wal, r))
  }

  function Step(s: System, e: Event): System
    requires Enabled(s, e)
  {
    match e
    case BeginLoad => s.(txns := s.txns + [Txn(ACTIVE, s.globalEpoch, Loaded, [], 0)])
    case BeginEnter(id) =>
      var t := s.txns[id - 1];
      s.(txns := s.txns[id - 1 := t.(stage := Entered)], counters := Bump(s.counters, t.epoch, 1))
    case BeginLog(id) => LogChange(s, id, Control(id, 0, BEGIN), Open)
    case Insert(id, prev, rid, tuple) => LogChange(s, id, Change(id, prev, INSERT, rid, tuple), Open)
    case Commit(id) => if s.txns[id - 1].state == ABORTED then s else Finish(s, id, COMMITTED, COMMIT)
    case Abort(id) => if s.txns[id - 1].state == COMMITTED then s else Finish(s, id, ABORTED, ABORT)
    case Advance => s.(globalEpoch := s.globalEpoch + 1)
  }

  predicate IsRun(s: System, events: seq<Event>)
    decreases events
  {
    events == [] || (Enabled(s, events[0]) && IsRun(Step(s, events[0]), events[1..]))
  }

  function Run(s: System, events: seq<Event>): System
    requires IsRun(s, events)
    decreases events
  {
    if events == [] then s else Run(Step(s, events[0]), events[1..])
  }

  // ---------------------------------------------------------------- reachable states

  /** A set of states that a run cannot leave. */
  ghost predicate Closed(states: iset<System>) {
    Initial() in states && forall s, e :: s in states && Enabled(s, e) ==> Step(s, e) in states
  }

  /** A reachable state is in every such set. */
  ghost predicate Reachable(s: System) {
    forall states: iset<System> :: Closed(states) ==> s in states
  }

  lemma InitialReachable()
    ensures Reachable(Initial())
  {}

  lemma ReachableStep(s: System, e: Event)
    requires Reachable(s) && Enabled(s, e)
    ensures Reachable(Step(s, e))
  {
    forall states: iset<System> | Closed(states) ensures Step(s, e) in states {
      assert s in states;
    }
  }

  ghost predicate SomeRunEndsIn(s: System) {
    exists events :: IsRun(Initial(), events) && Run(Initial(), events) == s
  }

  lemma {:induction false} RunExtends(s: System, events: seq<Event>, e: Event)
    requires IsRun(s, events) && Enabled(Run(s, events), e)
    ensures IsRun(s, events + [e]) && Run(s, events + [e]) == Step(Run(s, events), e)
    decreases events
  {
    if events == [] {
      assert IsRun(Step(s, e), []);
      assert [e][1..] == [];
    } else {
      RunExtends(Step(s, events[0]), events[1..], e);
      assert (events + [e])[1..] == events[1..] + [e];
    }
  }

  lemma {:induction false} RunReaches(s: System, events: seq<Event>)
    requires Reachable(s) && IsRun(s, events)
    ensures Reachable(Run(s, events))
    decreases events
  {
    if events == [] {
    } else {
      ReachableStep(s, events[0]);
      RunReaches(Step(s, events[0]), events[1..]);
    }
  }

  /** The reachable states are exactly those in which some run from the start ends. */
  lemma ReachableExact(s: System)
    ensures Reachable(s) <==> SomeRunEndsIn(s)
  {
    if SomeRunEndsIn(s) {
      var events :| IsRun(Initial(), events) && Run(Initial(), events) == s;
      InitialReachable();
      RunReaches(Initial(), events);
    }
    if Reachable(s) {
      var ends := iset t: System | SomeRunEndsIn(t);
      assert IsRun(Initial(), []) && Run(Initial(), []) == Initial();
      forall t, e | t in ends && Enabled(t, e) ensures Step(t, e) in ends {
        var events :| IsRun(Initial(), events) && Run(Initial(), events) == t;
        RunExtends(Initial(), events, e);
      }
      assert Closed(ends);
    }
  }

  // ---------------------------------------------------------------- the log manager

  lemma StepKeepsWal(s: System, e: Event)
    requires Enabled(s, e) && s.wal == LogAfter(s.log, |s.log|)
    ensures var s' := Step(s, e); s'.wal == LogAfter(s'.log, |s'.log|)
  {
    var s' := Step(s, e);
    if s'.log != s.log { LogAfterAppend(s.log, s'.log[|s.log|]); }
  }

  /** In every reachable state the log manager is where the records so far have taken it. */
  lemma WalFollowsLog(s: System)
    requires Reachable(s)
    ensures s.wal == LogAfter(s.log, |s.log|)
  {
    var states := iset t: System | t.wal == LogAfter(t.log, |t.log|);
    forall t, e | t in states && Enabled(t, e) ensures Step(t, e) in states { StepKeepsWal(t, e); }
    assert Closed(states);
  }

  // ---------------------------------------------------------------- log safety

  predicate Logged(log: seq<LogRecord>, n: nat, id: nat, kind: RecordType)
    requires n <= |log|
  {
    exists i :: 0 <= i < n && log[i].txn == id && log[i].kind == kind
  }

  /** A BEGIN or INSERT record of the transaction. */
  predicate IsChange(r: LogRecord, id: nat) { r.txn == id && (r.kind == BEGIN || r.kind == INSERT) }

  /** The LSNs of a transaction's BEGIN and INSERT records among the first n, ascending. */
  function Changes(log: seq<LogRecord>, n: nat, id: nat): seq<nat>
    requires n <= |log|
  {
    if n == 0 then []
    else
      var front := Changes(log, n - 1, id);
      var r := log[n - 1];
      if IsChange(r, id) then front + [n] else front
  }

  /** Strictly rising numbers, none above n. */
  ghost predicate Rising(lsns: seq<nat>, n: nat) {
    && (forall i :: 0 <= i < |lsns| ==> lsns[i] <= n)
    && (forall i, j :: 0 <= i < j < |lsns| ==> lsns[i] < lsns[j])
  }

  /** The list holds exactly the LSNs of the transaction's changes among the first n records. */
  ghost predicate ListsChanges(lsns: seq<nat>, log: seq<LogRecord>, n: nat, id: nat)
    requires n <= |log|
  {
    forall lsn :: lsn in lsns <==> 1 <= lsn <= n && IsChange(log[lsn - 1], id)
  }

  lemma {:induction false} ChangesExact(log: seq<LogRecord>, n: nat, id: nat)
    requires n <= |log|
    ensures Rising(Changes(log, n, id), n) && ListsChanges(Changes(log, n, id), log, n, id)
  {
    if n == 0 {
    } else {
      ChangesExact(log, n - 1, id);
      var front, all := Changes(log, n - 1, id), Changes(log, n, id);
      if IsChange(log[n - 1], id) {
        assert all == front + [n];
      } else {
        assert all == front;
      }
    }
  }

  /** What the log says about a transaction is what the transaction says about itself. */
  ghost predicate TxnSafe(log: seq<LogRecord>, id: nat, t: Txn) {
    // the write set lists exactly its BEGIN and INSERT records
    && t.writeSet == Changes(log, |log|, id)
    // its state and its terminal record agree, so it never has both
    && (Logged(log, |log|, id, COMMIT) <==> t.state == COMMITTED)
    && (Logged(log, |log|, id, ABORT) <==> t.state == ABORTED)
    // BEGIN is there once the transaction is open, comes first, and only once
    && (t.stage != Open ==> forall i :: 0 <= i < |log| ==> log[i].txn != id)
    && (t.stage == Open ==>
          && t.writeSet != [] && 1 <= t.writeSet[0] <= |log|
          && log[t.writeSet[0] - 1] == Control(id, 0, BEGIN)
          && (forall i :: 0 <= i < t.writeSet[0] - 1 ==> log[i].txn != id)
          && (forall i :: t.writeSet[0] <= i < |log| && log[i].txn == id ==> log[i].kind != BEGIN))
  }

  ghost predicate LogSafe(s: System) {
    && (forall id: nat :: Known(s, id) ==> TxnSafe(s.log, id, TxnOf(s, id)))
    && (forall i :: 0 <= i < |s.log| ==> 1 <= s.log[i].txn <= |s.txns|)
  }

  lemma {:induction false} ChangesPrefix(log: seq<LogRecord>, r: LogRecord, n: nat, id: nat)
    requires n <= |log|
    ensures Changes(log + [r], n, id) == Changes(log, n, id)
  {
    if n == 0 {
    } else {
      ChangesPrefix(log, r, n - 1, id);
    }
  }

  lemma LoggedAppend(log: seq<LogRecord>, r: LogRecord, id: nat, kind: RecordType)
    ensures Logged(log + [r], |log| + 1, id, kind) <==> Logged(log, |log|, id, kind) || (r.txn == id && r.kind == kind)
  {
    var log' := log + [r];
    if Logged(log, |log|, id, kind) {
      var i :| 0 <= i < |log| && log[i].txn == id && log[i].kind == kind;
      assert log'[i] == log[i];
    }
    if r.txn == id && r.kind == kind { assert log'[|log|] == r; }
  }

  /** A record of another transaction does not touch this one. */
  lemma OtherRecordKeepsSafe(log: seq<LogRecord>, r: LogRecord, id: nat, t: Txn)
    requires TxnSafe(log, id, t) && r.txn != id
    ensures TxnSafe(log + [r], id, t)
  {
    ChangesPrefix(log, r, |log|, id);
    LoggedAppend(log, r, id, COMMIT);
    LoggedAppend(log, r, id, ABORT);
  }

  lemma ChangeKeepsSafe(log: seq<LogRecord>, r: LogRecord, id: nat, t: Txn)
    requires TxnSafe(log, id, t) && r.txn == id
    requires if t.stage == Open then r.kind == INSERT else r == Control(id, 0, BEGIN)
    ensures TxnSafe(log + [r], id, t.(writeSet := t.writeSet + [|log| + 1], stage := Open))
  {
    ChangesPrefix(log, r, |log|, id);
    LoggedAppend(log, r, id, COMMIT);
    LoggedAppend(log, r, id, ABORT);
    if t.stage != Open { NoRecordsNoChanges(log, |log|, id); }
  }

  lemma {:induction false} NoRecordsNoChanges(log: seq<LogRecord>, n: nat, id: nat)
    requires n <= |log| && forall i :: 0 <= i < |log| ==> log[i].txn != id
    ensures Changes(log, n, id) == []
  {
    if n == 0 {
    } else {
      NoRecordsNoChanges(log, n - 1, id);
    }
  }

  lemma FinishKeepsSafe(log: seq<LogRecord>, id: nat, t: Txn, state: TxnState, kind: RecordType, finishes: nat)
    requires TxnSafe(log, id, t) && t.stage == Open
    requires (state == COMMITTED && kind == COMMIT && t.state != ABORTED)
             || (state == ABORTED && kind == ABORT && t.state != COMMITTED)
    ensures TxnSafe(log + [Control(id, 0, kind)], id, t.(state := state, finishes := finishes))
  {
    var r := Control(id, 0, kind);
    ChangesPrefix(log, r, |log|, id);
    LoggedAppend(log, r, id, COMMIT);
    LoggedAppend(log, r, id, ABORT);
  }

  /** Every step keeps the log safe and never takes a transaction out of a terminal state. */
  lemma StepSafe(s: System, e: Event)
    requires LogSafe(s) && Enabled(s, e)
    ensures LogSafe(Step(s, e)) && |s.txns| <= |Step(s, e).txns|
    ensures forall id: nat :: Known(s, id) && TxnOf(s, id).state != ACTIVE ==>
              TxnOf(Step(s, e), id).state == TxnOf(s, id).state
  {
    var s' := Step(s, e);
    forall id: nat | Known(s', id) ensures TxnSafe(s'.log, id, TxnOf(s', id)) {
      if e.BeginLoad? && id == |s'.txns| {
        NoRecordsNoChanges(s.log, |s.log|, id);
      } else {
        StepKeepsTxnSafe(s, e, id);
      }
    }
  }

  lemma ChangeStepSafe(s: System, i: nat, r: LogRecord, id: nat)
    requires LogSafe(s) && Known(s, id) && Known(s, i) && r.txn == i
    requires if s.txns[i - 1].stage == Open then r.kind == INSERT else r == Control(i, 0, BEGIN)
    ensures var s' := LogChange(s, i, r, Open); TxnSafe(s'.log, id, s'.txns[id - 1])
  {
    assert TxnSafe(s.log, id, TxnOf(s, id));
    if i == id { ChangeKeepsSafe(s.log, r, id, s.txns[id - 1]); }
    else { OtherRecordKeepsSafe(s.log, r, id, s.txns[id - 1]); }
  }

  lemma FinishStepSafe(s: System, i: nat, state: TxnState, kind: RecordType, id: nat)
    requires LogSafe(s) && Known(s, id) && Known(s, i) && s.txns[i - 1].stage == Open && |s.counters| == MAX_EPOCHS
    requires (state == COMMITTED && kind == COMMIT && s.txns[i - 1].state != ABORTED)
             || (state == ABORTED && kind == ABORT && s.txns[i - 1].state != COMMITTED)
    ensures var s' := Finish(s, i, state, kind); TxnSafe(s'.log, id, s'.txns[id - 1])
  {
    var t := s.txns[id - 1];
    assert TxnSafe(s.log, id, TxnOf(s, id));
    if i == id { FinishKeepsSafe(s.log, id, t, state, kind, t.finishes + 1); }
    else { OtherRecordKeepsSafe(s.log, Control(i, 0, kind), id, t); }
  }

  lemma StepKeepsTxnSafe(s: System, e: Event, id: nat)
    requires LogSafe(s) && Enabled(s, e) && Known(s, id)
    ensures TxnSafe(Step(s, e).log, id, Step(s, e).txns[id - 1])
  {
    assert TxnSafe(s.log, id, TxnOf(s, id));
    match e
    case BeginLog(i) => ChangeStepSafe(s, i, Control(i, 0, BEGIN), id);
    case Insert(i, prev, rid, tuple) => ChangeStepSafe(s, i, Change(i, prev, INSERT, rid, tuple), id);
    case Commit(i) => if s.txns[i - 1].state != ABORTED { FinishStepSafe(s, i, COMMITTED, COMMIT, id); }
    case Abort(i) => if s.txns[i - 1].state != COMMITTED { FinishStepSafe(s, i, ABORTED, ABORT, id); }
    case _ =>
  }

  /** Log safety over every run: no transaction has both a COMMIT and an ABORT record, its
      state matches, BEGIN comes first, the write set is exact, and terminal is terminal. */
  lemma {:induction false} RunSafe(s: System, events: seq<Event>)
    requires LogSafe(s) && IsRun(s, events)
    ensures LogSafe(Run(s, events)) && |s.txns| <= |Run(s, events).txns|
    ensures forall id: nat :: Known(s, id) && TxnOf(s, id).state != ACTIVE ==>
              TxnOf(Run(s, events), id).state == TxnOf(s, id).state
    decreases events
  {
    if events == [] {
    } else {
      StepSafe(s, events[0]);
      RunSafe(Step(s, events[0]), events[1..]);
    }
  }

  /** In every run from the start: a transaction never has both terminal records, each
      agrees with its state, and the first record it has is its only BEGIN. */
  lemma LogIsConsistent(events: seq<Event>, id: nat)
    requires IsRun(Initial(), events) && Known(Run(Initial(), events), id)
    ensures var s := Run(Initial(), events);
            var t, n := TxnOf(s, id), |s.log|;
            && !(Logged(s.log, n, id, COMMIT) && Logged(s.log, n, id, ABORT))
            && (Logged(s.log, n, id, COMMIT) <==> t.state == COMMITTED)
            && (Logged(s.log, n, id, ABORT) <==> t.state == ABORTED)
            && Rising(t.writeSet, n) && ListsChanges(t.writeSet, s.log, n, id)
            && t.writeSet == Changes(s.log, n, id)
            && (t.stage == Open ==>
                  exists i :: 0 <= i < n && s.log[i] == Control(id, 0, BEGIN)
                              && (forall j :: 0 <= j < i ==> s.log[j].txn != id)
                              && (forall j :: i < j < n && s.log[j].txn == id ==> s.log[j].kind != BEGIN))
  {
    InitialIsGood();
    RunSafe(Initial(), events);
    ChangesExact(Run(Initial(), events).log, |Run(Initial(), events).log|, id);
    assert TxnSafe(Run(Initial(), events).log, id, TxnOf(Run(Initial(), events), id));
  }

  // ---------------------------------------------------------------- epoch conservation

  predicate InEpoch(t: Txn) { t.stage != Loaded && t.finishes == 0 }

  /** What a transaction contributes to the sum of all counters. */
  function Weight(t: Txn): int { if t.stage != Loaded then 1 - t.finishes else 0 }

  /** What a transaction contributes to bucket b: one while it is in its epoch, nothing
      after one finish, minus one for every further finish. */
  function Share(t: Txn, b: nat): int {
    if t.epoch % 1024 == b then Weight(t) else 0
  }

  function Shares(txns: seq<Txn>, n: nat, b: nat): int
    requires n <= |txns|
  {
    if n == 0 then 0 else Shares(txns, n - 1, b) + Share(txns[n - 1], b)
  }

  /** The transactions in their epoch whose epoch falls into bucket b. */
  function ActiveIn(txns: seq<Txn>, n: nat, b: nat): nat
    requires n <= |txns|
  {
    if n == 0 then 0
    else ActiveIn(txns, n - 1, b) + (if InEpoch(txns[n - 1]) && txns[n - 1].epoch % 1024 == b then 1 else 0)
  }

  function Sum(c: seq<int>, n: nat): int
    requires n <= |c|
  {
    if n == 0 then 0 else Sum(c, n - 1) + c[n - 1]
  }

  function TotalShares(txns: seq<Txn>, n: nat): int
    requires n <= |txns|
  {
    if n == 0 then 0 else TotalShares(txns, n - 1) + Weight(txns[n - 1])
  }

  function TotalActive(txns: seq<Txn>, n: nat): nat
    requires n <= |txns|
  {
    if n == 0 then 0 else TotalActive(txns, n - 1) + (if InEpoch(txns[n - 1]) then 1 else 0)
  }

  ghost predicate Conserved(s: System) {
    && |s.counters| == MAX_EPOCHS
    && (forall b: nat :: b < MAX_EPOCHS ==> s.counters[b] == Shares(s.txns, |s.txns|, b))
    && Sum(s.counters, MAX_EPOCHS) == TotalShares(s.txns, |s.txns|)
    // only an open transaction has been finished
    && (forall i :: 0 <= i < |s.txns| && s.txns[i].stage != Open ==> s.txns[i].finishes == 0)
  }

  lemma {:induction false} SharesUpdate(txns: seq<Txn>, i: nat, t: Txn, n: nat, b: nat)
    requires i < |txns| && n <= |txns|
    ensures Shares(txns[i := t], n, b) == Shares(txns, n, b) + (if i < n then Share(t, b) - Share(txns[i], b) else 0)
  {
    if n == 0 {
    } else {
      SharesUpdate(txns, i, t, n - 1, b);
    }
  }

  lemma {:induction false} SharesAppend(txns: seq<Txn>, t: Txn, n: nat, b: nat)
    requires n <= |txns|
    ensures Shares(txns + [t], n, b) == Shares(txns, n, b)
    ensures TotalShares(txns + [t], n) == TotalShares(txns, n)
  {
    if n == 0 {
    } else {
      SharesAppend(txns, t, n - 1, b);
    }
  }

  lemma {:induction false} TotalUpdate(txns: seq<Txn>, i: nat, t: Txn, n: nat)
    requires i < |txns| && n <= |txns|
    ensures TotalShares(txns[i := t], n) == TotalShares(txns, n) + (if i < n then Weight(t) - Weight(txns[i]) else 0)
  {
    if n == 0 {
    } else {
      TotalUpdate(txns, i, t, n - 1);
    }
  }

  lemma {:induction false} SumUpdate(c: seq<int>, i: nat, v: int, n: nat)
    requires i < |c| && n <= |c|
    ensures Sum(c[i := v], n) == Sum(c, n) + (if i < n then v - c[i] else 0)
  {
    if n == 0 {
    } else {
      SumUpdate(c, i, v, n - 1);
    }
  }

  /** Moving one transaction's weight by delta and its counter by delta keeps the balance. */
  lemma MoveConserves(s: System, s': System, id: nat, delta: int)
    requires Conserved(s) && Known(s, id)
    requires |s'.txns| == |s.txns| && s'.txns == s.txns[id - 1 := s'.txns[id - 1]]
    requires s'.counters == Bump(s.counters, s.txns[id - 1].epoch, delta)
    requires s'.txns[id - 1].epoch == s.txns[id - 1].epoch
    requires Weight(s'.txns[id - 1]) == Weight(s.txns[id - 1]) + delta
    requires s'.txns[id - 1].stage != Open ==> s'.txns[id - 1].finishes == 0
    ensures Conserved(s')
  {
    var t, t' := s.txns[id - 1], s'.txns[id - 1];
    var bucket := t.epoch % 1024;
    forall b: nat | b < MAX_EPOCHS ensures s'.counters[b] == Shares(s'.txns, |s'.txns|, b) {
      SharesUpdate(s.txns, id - 1, t', |s.txns|, b);
    }
    TotalUpdate(s.txns, id - 1, t', |s.txns|);
    SumUpdate(s.counters, bucket, s.counters[bucket] + delta, MAX_EPOCHS);
  }

  lemma BumpZero(c: seq<int>, epoch: nat)
    requires |c| == MAX_EPOCHS
    ensures Bump(c, epoch, 0) == c
  {}

  lemma StepConserves(s: System, e: Event)
    requires Conserved(s) && Enabled(s, e)
    ensures Conserved(Step(s, e))
  {
    var s' := Step(s, e);
    match e
    case BeginLoad =>
      var t := s'.txns[|s.txns|];
      forall b: nat | b < MAX_EPOCHS ensures s'.counters[b] == Shares(s'.txns, |s'.txns|, b) {
        SharesAppend(s.txns, t, |s.txns|, b);
      }
      SharesAppend(s.txns, t, |s.txns|, 0);
    case BeginEnter(id) => MoveConserves(s, s', id, 1);
    case BeginLog(id) => BumpZero(s.counters, s.txns[id - 1].epoch); MoveConserves(s, s', id, 0);
    case Insert(id, _, _, _) => BumpZero(s.counters, s.txns[id - 1].epoch); MoveConserves(s, s', id, 0);
    case Commit(id) => if s' != s { MoveConserves(s, s', id, -1); }
    case Abort(id) => if s' != s { MoveConserves(s, s', id, -1); }
    case Advance =>
  }

  lemma {:induction false} ZeroSum(n: nat)
    requires n <= MAX_EPOCHS
    ensures Sum(Initial().counters, n) == 0
  {
    if n == 0 {
    } else {
      ZeroSum(n - 1);
    }
  }

  /** Every run from the start conserves the counters, finished twice or not. */
  lemma {:induction false} RunConserves(s: System, events: seq<Event>)
    requires Conserved(s) && IsRun(s, events)
    ensures Conserved(Run(s, events))
    decreases events
  {
    if events == [] {
    } else {
      StepConserves(s, events[0]);
      RunConserves(Step(s, events[0]), events[1..]);
    }
  }

  lemma InitialIsGood()
    ensures LogSafe(Initial()) && Conserved(Initial())
  {
    ZeroSum(MAX_EPOCHS);
  }

  lemma {:induction false} SharesVersusActive(txns: seq<Txn>, n: nat, b: nat)
    requires n <= |txns|
    ensures Shares(txns, n, b) <= ActiveIn(txns, n, b)
    ensures Shares(txns, n, b) == ActiveIn(txns, n, b) <==>
            forall i :: 0 <= i < n && txns[i].stage != Loaded && txns[i].epoch % 1024 == b ==> txns[i].finishes <= 1
  {
    if n == 0 {
    } else {
      SharesVersusActive(txns, n - 1, b);
    }
  }

  /** A counter equals the number of transactions in its epochs, and so is never negative,
      exactly when none of that bucket was finished twice. */
  lemma CounterExact(s: System, b: nat)
    requires Conserved(s) && b < MAX_EPOCHS
    ensures s.counters[b] <= ActiveIn(s.txns, |s.txns|, b)
    ensures s.counters[b] == ActiveIn(s.txns, |s.txns|, b) <==>
            forall i :: 0 <= i < |s.txns| && s.txns[i].stage != Loaded && s.txns[i].epoch % 1024 == b ==>
              s.txns[i].finishes <= 1
  {
    SharesVersusActive(s.txns, |s.txns|, b);
  }

  ghost predicate FinishedOnce(s: System) {
    forall i :: 0 <= i < |s.txns| ==> s.txns[i].finishes <= 1
  }

  lemma {:induction false} TotalIsActive(txns: seq<Txn>, n: nat)
    requires n <= |txns| && forall i :: 0 <= i < |txns| ==> txns[i].finishes <= 1
    ensures TotalShares(txns, n) == TotalActive(txns, n)
  {
    if n == 0 {
    } else {
      TotalIsActive(txns, n - 1);
    }
  }

  /** Conservation over every run without a repeated finish: each counter counts its bucket
      and all counters together count the transactions in an epoch. */
  lemma CountersCountActive(events: seq<Event>)
    requires IsRun(Initial(), events) && FinishedOnce(Run(Initial(), events))
    ensures var s := Run(Initial(), events);
            && |s.counters| == MAX_EPOCHS
            && (forall b: nat :: b < MAX_EPOCHS ==> s.counters[b] == ActiveIn(s.txns, |s.txns|, b))
            && Sum(s.counters, MAX_EPOCHS) == TotalActive(s.txns, |s.txns|)
  {
    InitialIsGood();
    RunConserves(Initial(), events);
    var s := Run(Initial(), events);
    forall b: nat | b < MAX_EPOCHS ensures s.counters[b] == ActiveIn(s.txns, |s.txns|, b) { CounterExact(s, b); }
    TotalIsActive(s.txns, |s.txns|);
  }

  function OneBegin(id: nat): seq<Event> { [BeginLoad, BeginEnter(id), BeginLog(id)] }

  lemma {:induction false} RunSplits(s: System, a: seq<Event>, b: seq<Event>)
    requires IsRun(s, a) && IsRun(Run(s, a), b)
    ensures IsRun(s, a + b) && Run(s, a + b) == Run(Run(s, a), b)
    decreases a
  {
    if a == [] {
      assert [] + b == b;
    } else {
      assert (a + b)[1..] == a[1..] + b;
      RunSplits(Step(s, a[0]), a[1..], b);
    }
  }

  /** What the three steps of an undisturbed Begin add up to. */
  lemma BeginAdds(s: System, id: nat)
    requires |s.counters| == MAX_EPOCHS && id == |s.txns| + 1
    ensures IsRun(s, OneBegin(id))
    ensures Run(s, OneBegin(id)) ==
            System(s.txns + [Txn(ACTIVE, s.globalEpoch, Open, [|s.log| + 1], 0)],
                   s.globalEpoch, Bump(s.counters, s.globalEpoch, 1),
                   s.log + [Control(id, 0, BEGIN)], Record(s.wal, Control(id, 0, BEGIN)))
  {
    var t := Txn(ACTIVE, s.globalEpoch, Loaded, [], 0);
    var s1 := Step(s, BeginLoad);
    assert s1.txns == s.txns + [t];
    var s2 := Step(s1, BeginEnter(id));
    assert s2.txns == s.txns + [t.(stage := Entered)];
    var s3 := Step(s2, BeginLog(id));
    assert [] + [|s.log| + 1] == [|s.log| + 1];
    assert s3.txns == s.txns + [t.(stage := Open, writeSet := [|s.log| + 1])];
    var events := OneBegin(id);
    assert events[1..] == [BeginEnter(id), BeginLog(id)] && events[1..][1..] == [BeginLog(id)] && [BeginLog(id)][1..] == [];
    assert IsRun(s3, []) && IsRun(s2, [BeginLog(id)]) && IsRun(s1, events[1..]);
    assert Run(s2, [BeginLog(id)]) == Run(s3, []);
    assert Run(s1, events[1..]) == Run(s2, [BeginLog(id)]);
  }

  /** Committing twice is enough to drive a counter below zero. */
  lemma DoubleCommitGoesNegative()
    ensures var events := OneBegin(1) + [Commit(1), Commit(1)];
            && IsRun(Initial(), events) && |Run(Initial(), events).counters| == MAX_EPOCHS
            && Run(Initial(), events).counters[1] == -1
  {
    BeginAdds(Initial(), 1);
    var s := Run(Initial(), OneBegin(1));
    var twice := [Commit(1), Commit(1)];
    assert twice[1..] == [Commit(1)] && [Commit(1)][1..] == [];
    var s1 := Step(s, Commit(1));
    var s2 := Step(s1, Commit(1));
    assert IsRun(s2, []) && IsRun(s1, [Commit(1)]) && IsRun(s, twice);
    assert Run(s1, [Commit(1)]) == Run(s2, []);
    RunSplits(Initial(), OneBegin(1), twice);
  }

  // ---------------------------------------------------------------- the epoch scan

  /** The scan of GetOldestActiveEpoch: from e down, the first epoch with a raised counter. */
  function Scan(counters: seq<int>, e: nat, current: nat): nat
    requires |counters| == MAX_EPOCHS
  {
    if e == 0 then current
    else if counters[e % 1024] > 0 then e
    else Scan(counters, e - 1, current)
  }

  function GetOldestActiveEpoch(s: System): nat
    requires |s.counters| == MAX_EPOCHS
  {
    Scan(s.counters, s.globalEpoch, s.globalEpoch)
  }

  /** Some transaction is in epoch e. */
  ghost predicate IsActive(s: System, e: nat) {
    exists i :: 0 <= i < |s.txns| && InEpoch(s.txns[i]) && s.txns[i].epoch == e
  }

  /** All epochs in use lie within the last 1024. */
  ghost predicate InWindow(s: System) {
    forall i :: 0 <= i < |s.txns| && InEpoch(s.txns[i]) ==>
      s.txns[i].epoch > 0 && s.globalEpoch < s.txns[i].epoch + 1024 && s.txns[i].epoch <= s.globalEpoch
  }

  lemma {:induction false} ActiveInPositive(txns: seq<Txn>, n: nat, b: nat)
    requires n <= |txns|
    ensures ActiveIn(txns, n, b) > 0 <==>
            exists i :: 0 <= i < n && InEpoch(txns[i]) && txns[i].epoch % 1024 == b
  {
    if n == 0 {
    } else {
      ActiveInPositive(txns, n - 1, b);
    }
  }

  lemma SameBucket(a: nat, e: nat, current: nat)
    requires a <= current < a + 1024 && e <= current < e + 1024 && a % 1024 == e % 1024
    ensures a == e
  {}

  /** Within the window a bucket stands for one epoch. */
  lemma RaisedIffActive(s: System, e: nat)
    requires Conserved(s) && FinishedOnce(s) && InWindow(s)
    requires 0 < e <= s.globalEpoch < e + 1024
    ensures s.counters[e % 1024] > 0 <==> IsActive(s, e)
  {
    var b := e % 1024;
    CounterExact(s, b);
    ActiveInPositive(s.txns, |s.txns|, b);
    if s.counters[b] > 0 {
      var i :| 0 <= i < |s.txns| && InEpoch(s.txns[i]) && s.txns[i].epoch % 1024 == b;
      SameBucket(s.txns[i].epoch, e, s.globalEpoch);
    }
    if IsActive(s, e) {
      var i :| 0 <= i < |s.txns| && InEpoch(s.txns[i]) && s.txns[i].epoch == e;
    }
  }

  lemma {:induction false} ScanStops(s: System, e: nat, current: nat)
    requires Conserved(s) && FinishedOnce(s) && InWindow(s)
    requires e <= s.globalEpoch && forall a: nat :: IsActive(s, a) ==> a <= e
    ensures var r := Scan(s.counters, e, current);
            if exists a: nat :: IsActive(s, a) then IsActive(s, r) && forall a: nat :: IsActive(s, a) ==> a <= r
            else r == current
    decreases e
  {
    if e == 0 {
    } else if exists a: nat :: IsActive(s, a) {
      var a: nat :| IsActive(s, a);
      var i :| 0 <= i < |s.txns| && InEpoch(s.txns[i]) && s.txns[i].epoch == a;
      RaisedIffActive(s, e);
      if s.counters[e % 1024] <= 0 {
        ScanStops(s, e - 1, current);
      }
    } else {
      NoneActiveNoneRaised(s, e % 1024);
      ScanStops(s, e - 1, current);
    }
  }

  lemma NoneActiveNoneRaised(s: System, b: nat)
    requires Conserved(s) && b < MAX_EPOCHS && forall a: nat :: !IsActive(s, a)
    ensures s.counters[b] <= 0
  {
    CounterExact(s, b);
    ActiveInPositive(s.txns, |s.txns|, b);
    if ActiveIn(s.txns, |s.txns|, b) > 0 {
      var i :| 0 <= i < |s.txns| && InEpoch(s.txns[i]) && s.txns[i].epoch % 1024 == b;
      assert IsActive(s, s.txns[i].epoch);
    }
  }

  ghost predicate IsOldest(s: System, e: nat) {
    IsActive(s, e) && forall a: nat :: IsActive(s, a) ==> e <= a
  }

  /** The scan returns the newest epoch in use, not the oldest; it is the oldest exactly
      when all transactions share one epoch. */
  lemma ScanExact(s: System)
    requires Conserved(s) && FinishedOnce(s) && InWindow(s)
    ensures var r := GetOldestActiveEpoch(s);
            && ((forall a: nat :: !IsActive(s, a)) ==> r == s.globalEpoch)
            && ((exists a: nat :: IsActive(s, a)) ==>
                  && IsActive(s, r) && (forall a: nat :: IsActive(s, a) ==> a <= r)
                  && (IsOldest(s, r) <==> forall a: nat, a': nat :: IsActive(s, a) && IsActive(s, a') ==> a == a'))
  {
    forall a: nat | IsActive(s, a) ensures a <= s.globalEpoch {
      var i :| 0 <= i < |s.txns| && InEpoch(s.txns[i]) && s.txns[i].epoch == a;
    }
    ScanStops(s, s.globalEpoch, s.globalEpoch);
  }

  /** Epochs are positive and never ahead of the clock. */
  ghost predicate EpochsPast(s: System) {
    s.globalEpoch > 0 && forall i :: 0 <= i < |s.txns| ==> 0 < s.txns[i].epoch <= s.globalEpoch
  }

  lemma {:induction false} RunEpochsPast(s: System, events: seq<Event>)
    requires EpochsPast(s) && IsRun(s, events)
    ensures EpochsPast(Run(s, events))
    decreases events
  {
    if events == [] {
    } else {
      assert EpochsPast(Step(s, events[0]));
      RunEpochsPast(Step(s, events[0]), events[1..]);
    }
  }

  /** Over every run without a repeated finish, as long as no active transaction is 1024
      epochs old, the scan returns the newest epoch in use, or the current one if none is;
      it is the oldest exactly when all active transactions share one epoch. */
  lemma RunScans(events: seq<Event>)
    requires IsRun(Initial(), events) && FinishedOnce(Run(Initial(), events))
    requires var s := Run(Initial(), events);
             forall i :: 0 <= i < |s.txns| && InEpoch(s.txns[i]) ==> s.globalEpoch < s.txns[i].epoch + 1024
    ensures var s := Run(Initial(), events);
            |s.counters| == MAX_EPOCHS &&
            var r := GetOldestActiveEpoch(s);
            && ((forall a: nat :: !IsActive(s, a)) ==> r == s.globalEpoch)
            && ((exists a: nat :: IsActive(s, a)) ==>
                  && IsActive(s, r) && (forall a: nat :: IsActive(s, a) ==> a <= r)
                  && (IsOldest(s, r) <==> forall a: nat, a': nat :: IsActive(s, a) && IsActive(s, a') ==> a == a'))
  {
    InitialIsGood();
    RunConserves(Initial(), events);
    RunEpochsPast(Initial(), events);
    ScanExact(Run(Initial(), events));
  }

  /** Two transactions one epoch apart: the scan passes over the older one. */
  lemma ScanMissesOldest()
    ensures var events := OneBegin(1) + ([Advance] + OneBegin(2));
            && IsRun(Initial(), events)
            && var s := Run(Initial(), events);
               && |s.counters| == MAX_EPOCHS && GetOldestActiveEpoch(s) == 2 && IsActive(s, 1) && !IsOldest(s, 2)
  {
    BeginAdds(Initial(), 1);
    var s1 := Run(Initial(), OneBegin(1));
    var s2 := Step(s1, Advance);
    assert [Advance][1..] == [] && IsRun(s2, []) && IsRun(s1, [Advance]) && Run(s1, [Advance]) == Run(s2, []);
    BeginAdds(s2, 2);
    RunSplits(s1, [Advance], OneBegin(2));
    RunSplits(Initial(), OneBegin(1), [Advance] + OneBegin(2));
    var s := Run(s2, OneBegin(2));
    assert InEpoch(s.txns[0]) && s.txns[0].epoch == 1;
    assert IsActive(s, 1);
  }
}
