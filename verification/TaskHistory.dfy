/**
 What the transaction table decides, in terms of what happened: the log of calls started and finished. The
 table forgets finished calls; with a clock that never goes back it forgets none too early and none too late.
 */
module TaskHistory {
  import opened Bytes
  import opened Tracker
  import opened RpcWire
  import opened Tasks

  ghost predicate HasStart(log: seq<LogEntry>, i: nat, k: Key)
  {
    exists a :: 0 <= a < |log| && log[a].Started? && log[a].task == i && log[a].key == k
  }

  ghost predicate HasFinish(log: seq<LogEntry>, i: nat, k: Key)
  {
    exists c :: 0 <= c < |log| && log[c].Finished? && log[c].task == i && log[c].key == k
  }

  ghost predicate FinishedAt(log: seq<LogEntry>, k: Key, t: Time)
  {
    exists c :: 0 <= c < |log| && log[c].Finished? && log[c].key == k && log[c].at == t
  }

  /** The retransmission rule, from the log alone: in progress, or finished no longer than retention ago. */
  ghost predicate Blocked(log: seq<LogEntry>, key: Key, now: Time, retention: nat)
  {
    || (exists i: nat :: HasStart(log, i, key) && !HasFinish(log, i, key))
    || (exists t :: FinishedAt(log, key, t) && now <= t + retention)
  }

  // ---- the log and the tasks ----

  ghost predicate StartsOnce(log: seq<LogEntry>)
  {
    forall a, b | 0 <= a < b < |log| && log[a].Started? && log[b].Started? :: log[a].task != log[b].task
  }

  ghost predicate StartsFirst(log: seq<LogEntry>)
  {
    forall c | 0 <= c < |log| && log[c].Finished? :: HasStart(log[..c], log[c].task, log[c].key)
  }

  /** In progress means started and not finished; a task starts at most once, and before it finishes. */
  ghost predicate Recorded(s: System)
  {
    && (forall i: nat, k :: HeldBy(s, i) == Some(k) <==> HasStart(s.log, i, k) && !HasFinish(s.log, i, k))
    && (forall i: nat, k | HasStart(s.log, i, k) :: i < |s.tasks| && !s.tasks[i].phase.Spawned?)
    && StartsOnce(s.log) && StartsFirst(s.log)
  }

  lemma Appended(log: seq<LogEntry>, x: LogEntry)
    ensures forall i: nat, k :: HasStart(log + [x], i, k) <==>
              HasStart(log, i, k) || (x.Started? && x.task == i && x.key == k)
    ensures forall i: nat, k :: HasFinish(log + [x], i, k) <==>
              HasFinish(log, i, k) || (x.Finished? && x.task == i && x.key == k)
    ensures forall k, t :: FinishedAt(log + [x], k, t) <==>
              FinishedAt(log, k, t) || (x.Finished? && x.key == k && x.at == t)
  {
    var l := log + [x];
    assert l[|log|] == x && forall a | 0 <= a < |log| :: l[a] == log[a];
    forall i: nat, k ensures HasStart(log, i, k) ==> HasStart(l, i, k) {
      if HasStart(log, i, k) {
        var a :| 0 <= a < |log| && log[a].Started? && log[a].task == i && log[a].key == k;
        assert l[a] == log[a];
      }
    }
    forall i: nat, k ensures HasFinish(log, i, k) ==> HasFinish(l, i, k) {
      if HasFinish(log, i, k) {
        var a :| 0 <= a < |log| && log[a].Finished? && log[a].task == i && log[a].key == k;
        assert l[a] == log[a];
      }
    }
    forall k, t ensures FinishedAt(log, k, t) ==> FinishedAt(l, k, t) {
      if FinishedAt(log, k, t) {
        var a :| 0 <= a < |log| && log[a].Finished? && log[a].key == k && log[a].at == t;
        assert l[a] == log[a];
      }
    }
  }

  lemma AppendedOrder(log: seq<LogEntry>, x: LogEntry)
    requires StartsOnce(log) && StartsFirst(log)
    requires x.Started? ==> forall k :: !HasStart(log, x.task, k)
    requires x.Finished? ==> HasStart(log, x.task, x.key)
    ensures StartsOnce(log + [x]) && StartsFirst(log + [x])
  {
    var l := log + [x];
    forall a, b | 0 <= a < b < |l| && l[a].Started? && l[b].Started? ensures l[a].task != l[b].task {
      assert l[a] == log[a];
      assert HasStart(log, l[a].task, l[a].key);
    }
    forall c | 0 <= c < |l| && l[c].Finished? ensures HasStart(l[..c], l[c].task, l[c].key) {
      assert l[..c] == log[..c];
      if c == |log| { assert log[..c] == log; }
    }
  }

  lemma AdmittedRecorded(s: System, i: nat, key: Key)
    requires Recorded(s) && Enabled(s, Check(i))
    ensures Recorded(Admitted(s, i, key))
  {
    hide HasStart, HasFinish, StartsOnce, StartsFirst, Arrived;
    var t := Admitted(s, i, key);
    var x := Started(key, i, s.now);
    IntoHeld(s, i, t.tasks[i].phase);
    assert forall j :: HeldBy(t, j) == HeldBy(Into(s, i, t.tasks[i].phase), j);
    NotYetStarted(s, i);
    if t.log != s.log {
      Appended(s.log, x);
      AppendedOrder(s.log, x);
      assert forall k :: !HasFinish(s.log, i, k) by { NoFinishWithoutStart(s.log, i); }
    }
  }

  lemma NotYetStarted(s: System, i: nat)
    requires Recorded(s) && Enabled(s, Check(i))
    ensures forall k :: !HasStart(s.log, i, k)
    ensures HeldBy(s, i) == None
  {}

  lemma NoFinishWithoutStart(log: seq<LogEntry>, i: nat)
    requires StartsFirst(log)
    ensures forall k | HasFinish(log, i, k) :: HasStart(log, i, k)
  {
    forall k | HasFinish(log, i, k) ensures HasStart(log, i, k) {
      var c :| 0 <= c < |log| && log[c].Finished? && log[c].task == i && log[c].key == k;
      assert HasStart(log[..c], i, k);
      var a :| 0 <= a < c && log[..c][a].Started? && log[..c][a].task == i && log[..c][a].key == k;
      assert log[a] == log[..c][a];
    }
  }

  lemma MarkedRecorded(s: System, i: nat)
    requires Recorded(s) && Enabled(s, Mark(i))
    ensures Recorded(Marked(s, i))
  {
    hide HasStart, HasFinish, StartsOnce, StartsFirst, Processed;
    var t := Marked(s, i);
    var Stamped(key, ok, stamp) := s.tasks[i].phase;
    assert HeldBy(s, i) == Some(key);
    IntoHeld(s, i, t.tasks[i].phase);
    assert forall j :: HeldBy(t, j) == HeldBy(Into(s, i, t.tasks[i].phase), j);
    Appended(s.log, Finished(key, i, stamp));
    AppendedOrder(s.log, Finished(key, i, stamp));
    assert forall k :: HeldBy(s, i) == Some(k) <==> k == key;
  }

  lemma SameHeldRecorded(s: System, t: System)
    requires Recorded(s) && t.log == s.log && (forall i :: HeldBy(t, i) == HeldBy(s, i)) && |s.tasks| <= |t.tasks|
    requires forall i | 0 <= i < |s.tasks| && !s.tasks[i].phase.Spawned? :: !t.tasks[i].phase.Spawned?
    ensures Recorded(t)
  {}

  lemma StepRecorded(s: System, e: Event)
    requires Recorded(s)
    ensures Recorded(Step(s, e))
  {
    hide Classify, Recorded;
    if Enabled(s, e) {
      match e
      case Check(i) =>
        match Classify(s.tasks[i].record) {
          case Tracked(xid, _) => AdmittedRecorded(s, i, (xid, s.tasks[i].client));
          case _ => SameHeldRecorded(s, Step(s, e));
        }
      case Mark(i) => MarkedRecorded(s, i);
      case _ => SameHeldRecorded(s, Step(s, e));
    }
  }

  // ---- the log and the table, with a clock that never goes back ----

  predicate Forward(s: System, e: Event) { e.SetClock? ==> s.now <= e.now }

  ghost predicate ForwardRun(s: System, es: seq<Event>)
    decreases |es|
  {
    es != [] ==> Forward(s, es[0]) && ForwardRun(Step(s, es[0]), es[1..])
  }

  /** A finished call is still in the table, or its retention is over; the table holds no other completions. */
  ghost predicate Timely(s: System)
  {
    && (forall k, t | FinishedAt(s.log, k, t) ::
          (k in s.table && s.table[k] == Completed(t)) || t + s.retention < s.now)
    && (forall k | k in s.table && s.table[k].Completed? :: FinishedAt(s.log, k, s.table[k].time))
  }

  /** The check drops a call exactly when the log says it is in progress or finished within retention. */
  lemma CheckDecidesBlocked(s: System, key: Key)
    requires Exclusive(s) && Recorded(s) && Timely(s)
    ensures Arrived(s.table, key, s.retention, s.now).1 <==> Blocked(s.log, key, s.now, s.retention)
  {
    hide HasStart, HasFinish, FinishedAt, StartsOnce, StartsFirst;
    if Busy(s.table, key) {
      var i :| HeldBy(s, i) == Some(key);
      assert HasStart(s.log, i, key) && !HasFinish(s.log, i, key);
    }
    forall i: nat | HasStart(s.log, i, key) && !HasFinish(s.log, i, key) ensures Busy(s.table, key) {
      assert HeldBy(s, i) == Some(key);
    }
  }

  lemma AdmittedTimely(s: System, i: nat, key: Key)
    requires Timely(s) && Enabled(s, Check(i))
    ensures Timely(Admitted(s, i, key))
  {
    hide FinishedAt;
    Appended(s.log, Started(key, i, s.now));
  }

  lemma MarkedTimely(s: System, i: nat)
    requires Exclusive(s) && Timely(s) && Enabled(s, Mark(i))
    ensures Timely(Marked(s, i))
  {
    hide FinishedAt;
    MarkFindsItsKey(s, i);
    var Stamped(key, ok, stamp) := s.tasks[i].phase;
    Appended(s.log, Finished(key, i, stamp));
  }

  lemma StepTimely(s: System, e: Event)
    requires Exclusive(s) && Timely(s) && Forward(s, e)
    ensures Timely(Step(s, e))
  {
    hide Classify, Exclusive, Admitted, Marked;
    if Enabled(s, e) {
      match e
      case Check(i) =>
        if Classify(s.tasks[i].record).Tracked? {
          AdmittedTimely(s, i, (Classify(s.tasks[i].record).xid, s.tasks[i].client));
        }
      case Mark(i) => MarkedTimely(s, i);
      case _ =>
    }
  }

  // ---- executions of one key are apart ----

  /** The earlier call finished, at a stamp more than the retention before the later one started. */
  ghost predicate Apart(log: seq<LogEntry>, a: nat, b: nat, retention: nat)
    requires a < b < |log|
  {
    exists c :: a < c < b && log[c].Finished? && log[c].key == log[a].key && log[c].task == log[a].task
                && log[c].at + retention < log[b].at
  }

  ghost predicate Separated(s: System)
  {
    forall a, b | 0 <= a < b < |s.log| && s.log[a].Started? && s.log[b].Started? && s.log[a].key == s.log[b].key ::
      Apart(s.log, a, b, s.retention)
  }

  lemma EarlierIsApart(s: System, a: nat, x: LogEntry)
    requires Recorded(s) && a < |s.log| && s.log[a].Started? && x.Started? && x.key == s.log[a].key && x.at == s.now
    requires !Blocked(s.log, x.key, s.now, s.retention)
    ensures Apart(s.log + [x], a, |s.log|, s.retention)
  {
    var log, i := s.log, s.log[a].task;
    assert HasStart(log, i, x.key);
    var c :| 0 <= c < |log| && log[c].Finished? && log[c].task == i && log[c].key == x.key;
    assert FinishedAt(log, x.key, log[c].at);
    assert HasStart(log[..c], i, x.key);
    var a' :| 0 <= a' < c && log[..c][a'].Started? && log[..c][a'].task == i;
    assert log[a'] == log[..c][a'] && a' == a;
    assert (log + [x])[c] == log[c];
  }

  lemma ApartStays(log: seq<LogEntry>, a: nat, b: nat, retention: nat, x: LogEntry)
    requires a < b < |log| && Apart(log, a, b, retention)
    ensures Apart(log + [x], a, b, retention)
  {
    var c :| a < c < b && log[c].Finished? && log[c].key == log[a].key && log[c].task == log[a].task
             && log[c].at + retention < log[b].at;
    assert (log + [x])[c] == log[c];
  }

  lemma AppendedSeparated(s: System, x: LogEntry)
    requires Separated(s) && Recorded(s)
    requires x.Started? ==> x.at == s.now && !Blocked(s.log, x.key, s.now, s.retention)
    ensures Separated(s.(log := s.log + [x]))
  {
    hide Blocked, Recorded;
    var l := s.log + [x];
    forall a, b | 0 <= a < b < |l| && l[a].Started? && l[b].Started? && l[a].key == l[b].key
      ensures Apart(l, a, b, s.retention)
    {
      assert l[a] == s.log[a];
      if b < |s.log| {
        assert l[b] == s.log[b];
        ApartStays(s.log, a, b, s.retention, x);
      } else {
        EarlierIsApart(s, a, x);
      }
    }
  }

  lemma StepSeparated(s: System, e: Event)
    requires Exclusive(s) && Recorded(s) && Timely(s) && Separated(s)
    ensures Separated(Step(s, e))
  {
    hide Classify, Exclusive, Recorded, Timely, Blocked, Apart, Arrived;
    if Enabled(s, e) {
      match e
      case Check(i) =>
        if Classify(s.tasks[i].record).Tracked? {
          var key := (Classify(s.tasks[i].record).xid, s.tasks[i].client);
          CheckDecidesBlocked(s, key);
          if !Arrived(s.table, key, s.retention, s.now).1 { AppendedSeparated(s, Started(key, i, s.now)); }
        }
      case Mark(i) =>
        var Stamped(key, ok, stamp) := s.tasks[i].phase;
        AppendedSeparated(s, Finished(key, i, stamp));
      case _ =>
    }
  }

  // ---- over whole runs ----

  ghost predicate Good(s: System) { Exclusive(s) && Recorded(s) && Timely(s) && Separated(s) }

  /** What a check of task i would do is what the log says. */
  ghost predicate Decisive(s: System, i: nat, xid: u32, prog: u32)
  {
    Enabled(s, Check(i)) && Classify(s.tasks[i].record) == Tracked(xid, prog) ==>
      var key := (xid, s.tasks[i].client);
      Step(s, Check(i)).tasks[i].phase
        == if Blocked(s.log, key, s.now, s.retention) then Dropped else Executing(key)
  }

  lemma InitiallyGood(retention: nat, now: Time)
    ensures Good(Initially(retention, now))
  {}

  /**
   In every interleaving under a nondecreasing clock: a tracked call is dropped exactly when its key is in
   progress or finished at a stamp t with now <= t + retention, and executions of one key are apart.
   */
  lemma {:induction false} RetentionWindow(s: System, es: seq<Event>)
    requires Good(s) && ForwardRun(s, es)
    ensures Good(After(s, es))
    ensures forall i, xid, prog :: Decisive(After(s, es), i, xid, prog)
    decreases |es|
  {
    hide Exclusive, Recorded, Timely, Separated, Step, Blocked, Classify;
    if es != [] {
      StepExclusive(s, es[0]);
      StepRecorded(s, es[0]);
      StepTimely(s, es[0]);
      StepSeparated(s, es[0]);
      RetentionWindow(Step(s, es[0]), es[1..]);
    } else {
      forall i, xid, prog ensures Decisive(s, i, xid, prog) { Decided(s, i, xid, prog); }
    }
  }

  lemma Decided(s: System, i: nat, xid: u32, prog: u32)
    requires Good(s)
    ensures Decisive(s, i, xid, prog)
  {
    hide Classify, Exclusive, Recorded, Timely, Separated, Blocked;
    if i < |s.tasks| { CheckDecidesBlocked(s, (xid, s.tasks[i].client)); }
  }
}
