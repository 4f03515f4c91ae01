/** The table that detects retransmitted calls. */
module Tracker {
  import opened Bytes

  /** Readings of the system clock. */
  type Time = int
  type Key = (u32, string)
  datatype TransactionState = InProgress | Completed(time: Time)
  type Table = map<Key, TransactionState>

  predicate Kept(state: TransactionState, maxAge: nat, now: Time)
  {
    state.InProgress? || state.time >= now - maxAge
  }

  function Housekeeping(table: Table, maxAge: nat, now: Time): Table
  {
    map k | k in table && Kept(table[k], maxAge, now) :: table[k]
  }

  /** The check of an arriving call: the table after it, and whether the call is a retransmission. */
  function Arrived(table: Table, key: Key, maxAge: nat, now: Time): (Table, bool)
  {
    var kept := Housekeeping(table, maxAge, now);
    if key in kept then (kept, true) else (kept[key := InProgress], false)
  }

  function Processed(table: Table, key: Key, completion: Time): Table
  {
    if key in table then table[key := Completed(completion)] else table
  }

  /** Right after a check, no completed entry is older than the retention period, and none in progress is gone. */
  lemma NothingStale(table: Table, key: Key, maxAge: nat, now: Time)
    ensures var t := Arrived(table, key, maxAge, now).0;
            && key in t
            && (forall k | k in t && t[k].Completed? :: now <= t[k].time + maxAge)
            && (forall k | k in table && table[k].InProgress? :: k in t && t[k] == InProgress)
  {}

  class TransactionTracker {
    const retentionPeriod: nat
    var transactions: Table

    constructor (retentionPeriod: nat)
      ensures this.retentionPeriod == retentionPeriod && transactions == map[]
    {
      this.retentionPeriod, transactions := retentionPeriod, map[];
    }

    /** now is the clock's reading during the call. */
    method IsRetransmission(xid: u32, clientAddr: string, now: Time) returns (seen: bool)
      modifies this
      ensures (transactions, seen) == Arrived(old(transactions), (xid, clientAddr), retentionPeriod, now)
    {
      var key := (xid, clientAddr);
      transactions := Housekeeping(transactions, retentionPeriod, now);
      if key in transactions { return true; }
      transactions := transactions[key := InProgress];
      seen := false;
    }

    /** completionTime was read before the table was locked. */
    method MarkProcessed(xid: u32, clientAddr: string, completionTime: Time)
      modifies this
      ensures transactions == Processed(old(transactions), (xid, clientAddr), completionTime)
      ensures (xid, clientAddr) !in old(transactions) ==> transactions == old(transactions)
    {
      var key := (xid, clientAddr);
      if key in transactions { transactions := transactions[key := Completed(completionTime)]; }
    }
  }
}
