/**
 The epoch manager, the transaction and the transaction manager as objects. A call runs
 without interference here; the interleaved steps are the subject of Transactions.
 */
module TransactionManager {
  import opened Config
  import opened Log
  import T = Transactions

  class EpochManager {
    var globalEpoch: nat
    const counters: array<int>

    ghost predicate Valid() {
      counters.Length == T.MAX_EPOCHS
    }

    constructor ()
      ensures Valid() && fresh(counters) && globalEpoch == 1
      ensures counters[..] == T.Initial().counters
    {
      globalEpoch := 1;
      counters := new int[T.MAX_EPOCHS](i => 0);
    }

    method EnterEpoch() returns (epoch: nat)
      requires Valid()
      modifies counters
      ensures epoch == globalEpoch && counters[..] == T.Bump(old(counters[..]), epoch, 1)
    {
      epoch := globalEpoch;
      counters[epoch % 1024] := counters[epoch % 1024] + 1;
    }

    method ExitEpoch(epoch: nat)
      requires Valid()
      modifies counters
      ensures counters[..] == T.Bump(old(counters[..]), epoch, -1)
    {
      counters[epoch % 1024] := counters[epoch % 1024] - 1;
    }

    method AdvanceEpoch()
      modifies this`globalEpoch
      ensures globalEpoch == old(globalEpoch) + 1
    {
      globalEpoch := globalEpoch + 1;
    }

    /** The first raised counter at or below the current epoch, counted modulo 1024. */
    method GetOldestActiveEpoch() returns (oldest: nat)
      requires Valid()
      ensures oldest == T.Scan(counters[..], globalEpoch, globalEpoch)
      ensures forall e: nat :: oldest < e <= globalEpoch ==> counters[e % 1024] <= 0
      ensures (oldest > 0 && counters[oldest % 1024] > 0)
              || (oldest == globalEpoch && forall e: nat :: 0 < e <= globalEpoch ==> counters[e % 1024] <= 0)
    {
      var e := globalEpoch;
      while e > 0
        invariant 0 <= e <= globalEpoch
        invariant T.Scan(counters[..], e, globalEpoch) == T.Scan(counters[..], globalEpoch, globalEpoch)
        invariant forall e': nat :: e < e' <= globalEpoch ==> counters[e' % 1024] <= 0
      {
        if counters[e % 1024] > 0 { return e; }
        e := e - 1;
      }
      return globalEpoch;
    }
  }

  class Transaction {
    const id: nat
    var state: T.TxnState
    var epoch: nat
    var manager: EpochManager?
    var writeSet: seq<nat>

    constructor (id: nat)
      ensures this.id == id && state == T.ACTIVE && epoch == 0 && manager == null && writeSet == []
    {
      this.id, state, epoch, manager, writeSet := id, T.ACTIVE, 0, null, [];
    }

    method EnterReadEpoch(m: EpochManager)
      requires m.Valid()
      modifies this, m.counters
      ensures epoch == m.globalEpoch && manager == m
      ensures state == old(state) && writeSet == old(writeSet)
      ensures m.counters[..] == T.Bump(old(m.counters[..]), epoch, 1)
    {
      epoch := m.EnterEpoch();
      manager := m;
    }

    method AppendWriteSet(lsn: nat)
      modifies this`writeSet
      ensures writeSet == old(writeSet) + [lsn]
    {
      writeSet := writeSet + [lsn];
    }

    /** Both ends of a transaction: set the terminal state and leave the epoch. */
    method End(terminal: T.TxnState)
      requires manager != null ==> manager.Valid()
      modifies this`state, if manager != null then {manager.counters} else {}
      ensures state == terminal
      ensures manager != null ==> manager.counters[..] == T.Bump(old(manager.counters[..]), epoch, -1)
    {
      state := terminal;
      if manager != null { manager.ExitEpoch(epoch); }
    }
  }

  class TransactionManager {
    var nextTxnId: nat
    var txns: map<nat, Transaction>
    const log: LogManager
    const epochs: EpochManager
    /** The state of the machine in Transactions that this object is in. */
    ghost var sys: T.System

    ghost predicate Matches(id: nat, t: Transaction)
      requires 1 <= id <= |sys.txns|
      reads this, t
    {
      var m := sys.txns[id - 1];
      t.id == id && t.manager == epochs && t.state == m.state && t.epoch == m.epoch && t.writeSet == m.writeSet
      && m.stage == T.Open
    }

    ghost predicate Valid()
      reads this, log, epochs, epochs.counters, txns.Values
    {
      && epochs.Valid() && epochs.counters[..] == sys.counters && epochs.globalEpoch == sys.globalEpoch
      && T.Reachable(sys) && log.Abs() == sys.wal
      && nextTxnId == |sys.txns| + 1 && log.nextLsn == |sys.log| + 1
      && (forall id :: id in txns <==> 1 <= id < nextTxnId)
      && (forall id :: id in txns ==> Matches(id, txns[id]))
    }

    /** The transaction was handed out by this manager. */
    ghost predicate Owns(txn: Transaction)
      reads this
    {
      txn.id in txns && txns[txn.id] == txn
    }

    constructor (log: LogManager)
      requires log.Abs() == EMPTY
      ensures Valid() && this.log == log && sys == T.Initial() && fresh(epochs) && fresh(epochs.counters)
    {
      this.log := log;
      nextTxnId, txns := 1, map[];
      epochs := new EpochManager();
      sys := T.Initial();
      T.InitialReachable();
    }

    /** The tick of the epoch clock. */
    method AdvanceEpoch()
      requires Valid()
      modifies this`sys, epochs`globalEpoch
      ensures Valid() && sys == T.Step(old(sys), T.Advance)
    {
      epochs.AdvanceEpoch();
      T.ReachableStep(sys, T.Advance);
      sys := T.Step(sys, T.Advance);
    }

    /** Begin runs the three steps of the machine without interference. */
    method Begin() returns (txn: Transaction)
      requires Valid()
      modifies this, log, epochs.counters
      ensures Valid() && fresh(txn) && Owns(txn) && txn.id == old(nextTxnId)
      ensures log.Abs() == Append(old(log.Abs()), Control(txn.id, 0, BEGIN))
      ensures T.IsRun(old(sys), T.OneBegin(txn.id)) && sys == T.Run(old(sys), T.OneBegin(txn.id))
    {
      var id := nextTxnId;
      nextTxnId := nextTxnId + 1;
      txn := Start(id);
      txns := txns[id := txn];
      T.BeginAdds(sys, id);
      T.RunReaches(sys, T.OneBegin(id));
      sys := T.Run(sys, T.OneBegin(id));
    }

    /** A new transaction in the current epoch, with its BEGIN record in the log. */
    method Start(id: nat) returns (txn: Transaction)
      requires epochs.Valid()
      modifies log, epochs.counters
      ensures fresh(txn) && txn.id == id && txn.state == T.ACTIVE && txn.manager == epochs
      ensures txn.epoch == epochs.globalEpoch && txn.writeSet == [old(log.nextLsn)]
      ensures epochs.counters[..] == T.Bump(old(epochs.counters[..]), epochs.globalEpoch, 1)
      ensures log.Abs() == Append(old(log.Abs()), Control(id, 0, BEGIN))
    {
      txn := new Transaction(id);
      txn.EnterReadEpoch(epochs);
      var lsn := log.AppendLogRecord(Control(id, 0, BEGIN));
      txn.AppendWriteSet(lsn);
    }

    /** The executor's bookkeeping for one insert: log it and note the LSN. */
    method RecordInsert(txn: Transaction, prev: nat, rid: RID, tuple: seq<Byte>) returns (lsn: nat)
      requires Valid() && Owns(txn)
      modifies this`sys, txn`writeSet, log
      ensures Valid() && lsn == old(log.nextLsn)
      ensures log.Abs() == Append(old(log.Abs()), Change(txn.id, prev, INSERT, rid, tuple))
      ensures var e := T.Insert(txn.id, prev, rid, tuple);
              T.Enabled(old(sys), e) && sys == T.Step(old(sys), e)
    {
      lsn := log.AppendLogRecord(Change(txn.id, prev, INSERT, rid, tuple));
      txn.AppendWriteSet(lsn);
      T.ReachableStep(sys, T.Insert(txn.id, prev, rid, tuple));
      sys := T.Step(sys, T.Insert(txn.id, prev, rid, tuple));
    }

    method Commit(txn: Transaction)
      requires Valid() && Owns(txn)
      modifies this`sys, txn`state, log, epochs.counters
      ensures Valid() && T.Enabled(old(sys), T.Commit(txn.id)) && sys == T.Step(old(sys), T.Commit(txn.id))
      ensures log.Abs() == if old(txn.state) == T.ABORTED then old(log.Abs())
                           else Flush(Append(old(log.Abs()), Control(txn.id, 0, COMMIT)))
    {
      if txn.state == T.ABORTED { return; }
      var _ := log.AppendLogRecord(Control(txn.id, 0, COMMIT));
      log.FlushLog();
      txn.End(T.COMMITTED);
      T.ReachableStep(sys, T.Commit(txn.id));
      sys := T.Step(sys, T.Commit(txn.id));
    }

    method Abort(txn: Transaction)
      requires Valid() && Owns(txn)
      modifies this`sys, txn`state, log, epochs.counters
      ensures Valid() && T.Enabled(old(sys), T.Abort(txn.id)) && sys == T.Step(old(sys), T.Abort(txn.id))
      ensures log.Abs() == if old(txn.state) == T.COMMITTED then old(log.Abs())
                           else Append(old(log.Abs()), Control(txn.id, 0, ABORT))
    {
      if txn.state == T.COMMITTED { return; }
      var _ := log.AppendLogRecord(Control(txn.id, 0, ABORT));
      txn.End(T.ABORTED);
      T.ReachableStep(sys, T.Abort(txn.id));
      sys := T.Step(sys, T.Abort(txn.id));
    }
  }

  /** In every reachable state the transaction object says what the log says about it. */
  lemma ObjectMatchesLog(tm: TransactionManager, txn: Transaction)
    requires tm.Valid() && tm.Owns(txn)
    ensures var log := tm.sys.log;
            && txn.writeSet == T.Changes(log, |log|, txn.id)
            && (txn.state == T.COMMITTED <==> T.Logged(log, |log|, txn.id, COMMIT))
            && (txn.state == T.ABORTED <==> T.Logged(log, |log|, txn.id, ABORT))
            && tm.log.Abs() == LogAfter(log, |log|)
  {
    T.WalFollowsLog(tm.sys);
    T.ReachableExact(tm.sys);
    var events :| T.IsRun(T.Initial(), events) && T.Run(T.Initial(), events) == tm.sys;
    T.LogIsConsistent(events, txn.id);
    assert tm.Matches(txn.id, txn);
  }
}
