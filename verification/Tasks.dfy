/**
 The tasks spawned for records, one each, interleaved in any way around the one transaction table. An event is
 what happens between two points where another task may run.
 */
module Tasks {
  import opened Bytes
  import opened Tracker
  import opened RpcWire

  datatype Phase =
    | Spawned
    | Executing(key: Key)
    | Stamped(key: Key, ok: bool, stamp: Time)  // the completion time is read, the table not yet locked
    | Answering(call: Option<Key>, ok: bool)
    | Answered(call: Option<Key>, ok: bool)
    | Dropped
    | Aborted(key: Key)                         // the program's handler panicked

  datatype Task = Task(client: string, record: seq<byte>, phase: Phase)

  /** What has happened so far to the calls that were let through. */
  datatype LogEntry = Started(key: Key, task: nat, at: Time) | Finished(key: Key, task: nat, at: Time)

  /** What a task queues on its connection: a reply, or an error that closes the connection. */
  datatype Message = Message(client: string, task: nat, ok: bool)

  datatype System = System(
    retention: nat, now: Time, table: Table, tasks: seq<Task>, queue: seq<Message>, log: seq<LogEntry>)

  datatype Event =
    | Arrive(client: string, record: seq<byte>)
    | Check(task: nat)
    | ReadClock(task: nat, ok: bool)
    | Mark(task: nat)
    | Answer(task: nat)
    | Abort(task: nat)
    | SetClock(now: Time)

  function Initially(retention: nat, now: Time): System { System(retention, now, map[], [], [], []) }

  function Into(s: System, i: nat, p: Phase): System
    requires i < |s.tasks|
  {
    s.(tasks := s.tasks[i := s.tasks[i].(phase := p)])
  }

  predicate Enabled(s: System, e: Event)
  {
    match e
    case Arrive(_, _) => true
    case SetClock(_) => true
    case Check(i) => i < |s.tasks| && s.tasks[i].phase.Spawned?
    case ReadClock(i, _) => i < |s.tasks| && s.tasks[i].phase.Executing?
    case Mark(i) => i < |s.tasks| && s.tasks[i].phase.Stamped?
    case Answer(i) => i < |s.tasks| && s.tasks[i].phase.Answering?
    case Abort(i) => i < |s.tasks| && s.tasks[i].phase.Executing?
  }

  function Checked(s: System, i: nat): System
    requires Enabled(s, Check(i))
  {
    var t := s.tasks[i];
    match Classify(t.record)
    case Broken => Into(s, i, Answering(None, false))
    case VersionMismatch(_) => Into(s, i, Answering(None, true))
    case Tracked(xid, _) => Admitted(s, i, (xid, t.client))
  }

  function Admitted(s: System, i: nat, key: Key): System
    requires Enabled(s, Check(i))
  {
    var (table, seen) := Arrived(s.table, key, s.retention, s.now);
    if seen then Into(s.(table := table), i, Dropped)
    else Into(s.(table := table, log := s.log + [Started(key, i, s.now)]), i, Executing(key))
  }

  function Marked(s: System, i: nat): System
    requires Enabled(s, Mark(i))
  {
    var Stamped(key, ok, stamp) := s.tasks[i].phase;
    Into(s.(table := Processed(s.table, key, stamp), log := s.log + [Finished(key, i, stamp)]),
         i, Answering(Some(key), ok))
  }

  /** An event that cannot happen changes nothing. */
  function Step(s: System, e: Event): System
  {
    if !Enabled(s, e) then s else
    match e
    case Arrive(client, record) => s.(tasks := s.tasks + [Task(client, record, Spawned)])
    case SetClock(now) => s.(now := now)
    case Check(i) => Checked(s, i)
    case ReadClock(i, ok) => Into(s, i, Stamped(s.tasks[i].phase.key, ok, s.now))
    case Mark(i) => Marked(s, i)
    case Answer(i) =>
      var ok := s.tasks[i].phase.ok;
      Into(s.(queue := s.queue + [Message(s.tasks[i].client, i, ok)]), i, Answered(s.tasks[i].phase.call, ok))
    case Abort(i) => Into(s, i, Aborted(s.tasks[i].phase.key))
  }

  function After(s: System, es: seq<Event>): System
    decreases |es|
  {
    if es == [] then s else After(Step(s, es[0]), es[1..])
  }

  // ---- at most one task in progress for a key ----

  /** The key whose call is in progress in a task; an aborted task never gives it up. */
  function Held(p: Phase): Option<Key>
  {
    match p
    case Executing(key) => Some(key)
    case Stamped(key, _, _) => Some(key)
    case Aborted(key) => Some(key)
    case _ => None
  }

  function HeldBy(s: System, i: nat): Option<Key>
  {
    if i < |s.tasks| then Held(s.tasks[i].phase) else None
  }

  predicate Busy(table: Table, key: Key) { key in table && table[key].InProgress? }

  /** The keys marked in progress are exactly the keys in progress, each in one task. */
  ghost predicate Exclusive(s: System)
  {
    && (forall i | HeldBy(s, i).Some? :: Busy(s.table, HeldBy(s, i).value))
    && (forall i, j | HeldBy(s, i).Some? && HeldBy(s, i) == HeldBy(s, j) :: i == j)
    && (forall k | Busy(s.table, k) :: exists i :: HeldBy(s, i) == Some(k))
  }

  lemma IntoHeld(s: System, i: nat, p: Phase)
    requires i < |s.tasks|
    ensures forall j :: HeldBy(Into(s, i, p), j) == if j == i then Held(p) else HeldBy(s, j)
  {}

  /** A task that goes on, or ends, without the table changing. */
  lemma SameHeldExclusive(s: System, t: System)
    requires Exclusive(s) && t.table == s.table && forall i :: HeldBy(t, i) == HeldBy(s, i)
    ensures Exclusive(t)
  {}

  lemma AdmittedExclusive(s: System, i: nat, key: Key)
    requires Exclusive(s) && Enabled(s, Check(i))
    ensures Exclusive(Admitted(s, i, key))
  {
    var t := Admitted(s, i, key);
    IntoHeld(s, i, t.tasks[i].phase);
    assert forall j :: HeldBy(t, j) == HeldBy(Into(s, i, t.tasks[i].phase), j);
    assert forall k | Busy(s.table, k) :: Busy(t.table, k);
    assert forall k | Busy(t.table, k) :: Busy(s.table, k) || (k == key && HeldBy(t, i) == Some(k));
    assert HeldBy(t, i).Some? ==> !Busy(s.table, key);
    forall k | Busy(t.table, k) ensures exists j :: HeldBy(t, j) == Some(k) {
      if Busy(s.table, k) {
        var j :| HeldBy(s, j) == Some(k);
        assert HeldBy(t, j) == Some(k);
      }
    }
  }

  /** mark_processed always finds its key, in progress. */
  lemma MarkFindsItsKey(s: System, i: nat)
    requires Exclusive(s) && Enabled(s, Mark(i))
    ensures var Stamped(key, ok, stamp) := s.tasks[i].phase;
            Busy(s.table, key) && Marked(s, i).table == s.table[key := Completed(stamp)]
  {
    assert HeldBy(s, i).Some?;
  }

  lemma MarkedExclusive(s: System, i: nat)
    requires Exclusive(s) && Enabled(s, Mark(i))
    ensures Exclusive(Marked(s, i))
  {
    var t := Marked(s, i);
    var Stamped(key, ok, stamp) := s.tasks[i].phase;
    MarkFindsItsKey(s, i);
    IntoHeld(s, i, Answering(Some(key), ok));
    assert forall j :: HeldBy(t, j) == if j == i then None else HeldBy(s, j);
    assert HeldBy(s, i) == Some(key);
    assert forall k :: Busy(t.table, k) <==> Busy(s.table, k) && k != key;
    forall k | Busy(t.table, k) ensures exists j :: HeldBy(t, j) == Some(k) {
      var j :| HeldBy(s, j) == Some(k);
      assert HeldBy(t, j) == Some(k);
    }
  }

  lemma StepExclusive(s: System, e: Event)
    requires Exclusive(s)
    ensures Exclusive(Step(s, e))
  {
    hide Classify, Exclusive;
    if Enabled(s, e) {
      match e
      case Arrive(_, _) => SameHeldExclusive(s, Step(s, e));
      case SetClock(_) => SameHeldExclusive(s, Step(s, e));
      case Check(i) =>
        match Classify(s.tasks[i].record) {
          case Tracked(xid, _) => AdmittedExclusive(s, i, (xid, s.tasks[i].client));
          case _ => SameHeldExclusive(s, Step(s, e));
        }
      case Mark(i) => MarkedExclusive(s, i);
      case _ => SameHeldExclusive(s, Step(s, e));
    }
  }

  /**
   In every interleaving, with any clock: the keys marked in progress are exactly the calls being executed,
   each by one task.
   */
  lemma {:induction false} AlwaysExclusive(s: System, es: seq<Event>)
    requires Exclusive(s)
    ensures Exclusive(After(s, es))
    decreases |es|
  {
    hide Exclusive, Step;
    if es != [] {
      StepExclusive(s, es[0]);
      AlwaysExclusive(Step(s, es[0]), es[1..]);
    }
  }

  /** A call whose handler panics stays in progress: every retransmission of it is dropped, for ever. */
  lemma {:induction false} AbortedBlocksForEver(s: System, i: nat, key: Key, es: seq<Event>)
    requires Exclusive(s) && i < |s.tasks| && s.tasks[i].phase == Executing(key)
    ensures var t := After(Step(s, Abort(i)), es);
            && i < |t.tasks| && t.tasks[i].phase == Aborted(key)
            && forall now :: Arrived(t.table, key, t.retention, now).1
  {
    StepExclusive(s, Abort(i));
    AbortedIsFinal(Step(s, Abort(i)), i, key, es);
  }

  lemma {:induction false} AbortedIsFinal(s: System, i: nat, key: Key, es: seq<Event>)
    requires Exclusive(s) && i < |s.tasks| && s.tasks[i].phase == Aborted(key)
    ensures var t := After(s, es);
            && i < |t.tasks| && t.tasks[i].phase == Aborted(key)
            && forall now :: Arrived(t.table, key, t.retention, now).1
    decreases |es|
  {
    hide Exclusive, Step;
    if es != [] {
      StepExclusive(s, es[0]);
      AbortedStays(s, i, es[0]);
      AbortedIsFinal(Step(s, es[0]), i, key, es[1..]);
    } else {
      AbortedIsBusy(s, i, key);
    }
  }

  lemma AbortedStays(s: System, i: nat, e: Event)
    requires i < |s.tasks| && s.tasks[i].phase.Aborted?
    ensures i < |Step(s, e).tasks| && Step(s, e).tasks[i] == s.tasks[i]
  {
    hide Classify, Arrived, Processed;
  }

  lemma AbortedIsBusy(s: System, i: nat, key: Key)
    requires Exclusive(s) && i < |s.tasks| && s.tasks[i].phase == Aborted(key)
    ensures forall now :: Arrived(s.table, key, s.retention, now).1
  {
    assert HeldBy(s, i) == Some(key);
  }

  lemma InitiallyExclusive(retention: nat, now: Time)
    ensures Exclusive(Initially(retention, now))
  {}
}
