/**
 The retransmission window in clock readings: what a check decides is stated over the events of a run, without the
 stamps the tasks and the table keep. And each task's message is the one its record and its handler call for.
 */
module TaskClock {
  import opened Bytes
  import opened Tracker
  import opened RpcWire
  import opened Tasks
  import opened TaskHistory

  // ---- runs, event by event ----

  lemma {:induction false} AfterLast(s: System, es: seq<Event>)
    requires es != []
    ensures After(s, es) == Step(After(s, es[..|es| - 1]), es[|es| - 1])
    decreases |es|
  {
    hide Step;
    var front := es[..|es| - 1];
    if |es| > 1 {
      AfterLast(Step(s, es[0]), es[1..]);
      assert es[1..][..|es| - 2] == front[1..];
    } else {
      assert After(Step(s, es[0]), es[1..]) == Step(s, es[0]);
    }
  }

  lemma {:induction false} ForwardFront(s: System, es: seq<Event>)
    requires es != [] && ForwardRun(s, es)
    ensures ForwardRun(s, es[..|es| - 1]) && Forward(After(s, es[..|es| - 1]), es[|es| - 1])
    decreases |es|
  {
    hide Step;
    if |es| > 1 {
      ForwardFront(Step(s, es[0]), es[1..]);
      assert es[1..][..|es| - 2] == es[..|es| - 1][1..];
    }
  }

  /** The k-th event is task i reading the clock, at time t, at the end of its execution of the key. */
  ghost predicate ReadAt(s: System, es: seq<Event>, k: nat, i: nat, key: Key, t: Time, ok: bool)
  {
    k < |es| && es[k] == ReadClock(i, ok)
    && var u := After(s, es[..k]); Enabled(u, es[k]) && HeldBy(u, i) == Some(key) && u.now == t
  }

  /** In the run the task read the clock at time t. */
  ghost predicate WasRead(s: System, es: seq<Event>, i: nat, key: Key, t: Time)
  {
    exists k, ok :: ReadAt(s, es, k, i, key, t, ok)
  }

  /** In the run the task's handler ended with this outcome. */
  ghost predicate EndedWith(s: System, es: seq<Event>, i: nat, key: Key, ok: bool)
  {
    exists k, t :: ReadAt(s, es, k, i, key, t, ok)
  }

  lemma {:induction false} ReadAtFront(s: System, es: seq<Event>, k: nat, i: nat, key: Key, t: Time, ok: bool)
    requires es != []
    ensures ReadAt(s, es, k, i, key, t, ok)
       <==> ReadAt(s, es[..|es| - 1], k, i, key, t, ok)
            || (k == |es| - 1 && var u := After(s, es[..k]);
                es[k] == ReadClock(i, ok) && Enabled(u, es[k]) && HeldBy(u, i) == Some(key) && u.now == t)
  {
    var front := es[..|es| - 1];
    if k < |front| { assert front[..k] == es[..k] && front[k] == es[k]; }
  }

  /** The clock reads what it was last set to. */
  lemma {:induction false} ClockReads(s: System, es: seq<Event>)
    requires es != []
    ensures var e := es[|es| - 1];
            After(s, es).now == if e.SetClock? then e.now else After(s, es[..|es| - 1]).now
  {
    hide Classify;
    AfterLast(s, es);
  }

  // ---- what the stamps are ----

  ghost predicate FinishedBy(log: seq<LogEntry>, i: nat, k: Key, t: Time)
  {
    exists c :: 0 <= c < |log| && log[c] == Finished(k, i, t)
  }

  ghost predicate StampedBy(s: System, i: nat, k: Key, t: Time)
  {
    i < |s.tasks| && s.tasks[i].phase.Stamped? && s.tasks[i].phase.key == k && s.tasks[i].phase.stamp == t
  }

  /** The stamps kept are the clock's readings in the run, and no others. */
  ghost predicate StampsAreReadings(s: System, es: seq<Event>)
  {
    var u := After(s, es);
    forall i: nat, k, t :: WasRead(s, es, i, k, t) <==> StampedBy(u, i, k, t) || FinishedBy(u.log, i, k, t)
  }

  lemma WasReadFront(s: System, es: seq<Event>)
    requires es != []
    ensures var u, e := After(s, es[..|es| - 1]), es[|es| - 1];
            forall i: nat, k, t :: WasRead(s, es, i, k, t)
              <==> WasRead(s, es[..|es| - 1], i, k, t)
                   || (e.ReadClock? && e.task == i && Enabled(u, e) && HeldBy(u, i) == Some(k) && u.now == t)
  {
    hide ReadAt, Enabled, After, HeldBy;
    var front := es[..|es| - 1];
    var u, e := After(s, front), es[|es| - 1];
    forall i: nat, k, t
      ensures WasRead(s, es, i, k, t)
         <==> WasRead(s, front, i, k, t)
              || (e.ReadClock? && e.task == i && Enabled(u, e) && HeldBy(u, i) == Some(k) && u.now == t)
    {
      if WasRead(s, es, i, k, t) {
        var n: nat, ok :| ReadAt(s, es, n, i, k, t, ok);
        ReadAtFront(s, es, n, i, k, t, ok);
      }
      if WasRead(s, front, i, k, t) {
        var n: nat, ok :| ReadAt(s, front, n, i, k, t, ok);
        ReadAtFront(s, es, n, i, k, t, ok);
      }
      if e.ReadClock? && e.task == i {
        assert e == ReadClock(i, e.ok);
        ReadAtFront(s, es, |front|, i, k, t, e.ok);
      }
    }
  }

  lemma FinishedByAppended(log: seq<LogEntry>, x: LogEntry)
    ensures forall i: nat, k, t ::
              FinishedBy(log + [x], i, k, t) <==> FinishedBy(log, i, k, t) || x == Finished(k, i, t)
  {
    var l := log + [x];
    forall i: nat, k, t ensures FinishedBy(l, i, k, t) <==> FinishedBy(log, i, k, t) || x == Finished(k, i, t) {
      if FinishedBy(log, i, k, t) {
        var c :| 0 <= c < |log| && log[c] == Finished(k, i, t);
        assert l[c] == log[c];
      }
      if x == Finished(k, i, t) { assert l[|log|] == x; }
    }
  }

  /** A step's effect on the stamps: reading the clock makes one, marking moves it to the log. */
  lemma StepStamps(s: System, e: Event)
    ensures var u := Step(s, e);
            forall i: nat, k, t :: StampedBy(u, i, k, t) || FinishedBy(u.log, i, k, t)
              <==> StampedBy(s, i, k, t) || FinishedBy(s.log, i, k, t)
                   || (e.ReadClock? && e.task == i && Enabled(s, e) && HeldBy(s, i) == Some(k) && s.now == t)
  {
    hide Classify, Arrived, Processed, FinishedBy;
    var u := Step(s, e);
    if Enabled(s, e) {
      if u.log != s.log { FinishedByAppended(s.log, u.log[|s.log|]); }
    }
  }

  lemma {:induction false} StampsStayReadings(s: System, es: seq<Event>)
    requires s.tasks == [] && s.log == []
    ensures StampsAreReadings(s, es)
    decreases |es|
  {
    hide Step, StampedBy, FinishedBy, WasRead, Enabled, HeldBy;
    if es != [] {
      StampsStayReadings(s, es[..|es| - 1]);
      AfterLast(s, es);
      WasReadFront(s, es);
      StepStamps(After(s, es[..|es| - 1]), es[|es| - 1]);
    } else {
      NothingRead(s);
    }
  }

  lemma NothingRead(s: System)
    requires s.tasks == [] && s.log == []
    ensures StampsAreReadings(s, [])
  {}

  // ---- the window ----

  /** A call of the key is in progress, or read the clock no longer than the retention period ago. */
  ghost predicate TooSoon(s: System, es: seq<Event>, key: Key)
  {
    var u := After(s, es);
    || (exists i :: HeldBy(u, i) == Some(key))
    || (exists i: nat, t :: WasRead(s, es, i, key, t) && u.now <= t + u.retention)
  }

  lemma {:induction false} BlockedIsTooSoon(s: System, es: seq<Event>, key: Key)
    requires s.tasks == [] && s.log == [] && Recorded(After(s, es))
    ensures var u := After(s, es); Blocked(u.log, key, u.now, u.retention) <==> TooSoon(s, es, key)
  {
    hide After, HasStart, HasFinish, WasRead, StartsOnce, StartsFirst;
    StampsStayReadings(s, es);
    var u := After(s, es);
    forall t ensures FinishedAt(u.log, key, t) <==> exists i: nat :: FinishedBy(u.log, i, key, t) {
      if FinishedAt(u.log, key, t) {
        var c :| 0 <= c < |u.log| && u.log[c].Finished? && u.log[c].key == key && u.log[c].at == t;
        assert FinishedBy(u.log, u.log[c].task, key, t);
      }
    }
    assert forall i: nat, t | StampedBy(u, i, key, t) :: HeldBy(u, i) == Some(key);
    if TooSoon(s, es, key) && !(exists i :: HeldBy(u, i) == Some(key)) {
      var i: nat, t :| WasRead(s, es, i, key, t) && u.now <= t + u.retention;
      assert FinishedAt(u.log, key, t);
    }
    if t :| FinishedAt(u.log, key, t) && u.now <= t + u.retention {
      var i: nat :| FinishedBy(u.log, i, key, t);
      assert WasRead(s, es, i, key, t);
    }
    assert (exists i :: HeldBy(u, i) == Some(key))
      <==> (exists i: nat :: HasStart(u.log, i, key) && !HasFinish(u.log, i, key)) by { HeldIsOpen(u, key); }
  }

  lemma HeldIsOpen(u: System, key: Key)
    requires Recorded(u)
    ensures (exists i :: HeldBy(u, i) == Some(key))
       <==> (exists i: nat :: HasStart(u.log, i, key) && !HasFinish(u.log, i, key))
  {
    hide HasStart, HasFinish, HeldBy;
    if i :| HeldBy(u, i) == Some(key) {
      assert HasStart(u.log, i, key) && !HasFinish(u.log, i, key);
    }
    if i: nat :| HasStart(u.log, i, key) && !HasFinish(u.log, i, key) {
      assert HeldBy(u, i) == Some(key);
    }
  }

  /**
   In every run from the start whose clock never goes back: a call is dropped if one of its key is in progress, or
   read the clock at a time t with now <= t + retention when it was done; and otherwise it is let through.
   */
  lemma {:induction false} CheckedByReadings(retention: nat, start: Time, es: seq<Event>, j: nat, xid: u32, prog: u32)
    requires ForwardRun(Initially(retention, start), es)
    requires var u := After(Initially(retention, start), es);
             Enabled(u, Check(j)) && Classify(u.tasks[j].record) == Tracked(xid, prog)
    ensures var s := Initially(retention, start);
            var u := After(s, es);
            var key := (xid, u.tasks[j].client);
            Step(u, Check(j)).tasks[j].phase == if TooSoon(s, es, key) then Dropped else Executing(key)
  {
    hide Classify, Step, After, Blocked, TooSoon, ForwardRun, Exclusive, Recorded, Timely, Separated;
    var s := Initially(retention, start);
    InitiallyGood(retention, start);
    RetentionWindow(s, es);
    var u := After(s, es);
    assert Decisive(u, j, xid, prog);
    BlockedIsTooSoon(s, es, (xid, u.tasks[j].client));
  }

  /**
   A call that read the clock at time t when it was done is not executed again until the clock is beyond
   t + retention: any check of its key before that drops the arrival.
   */
  lemma {:induction false} NotAgainWithinRetention(retention: nat, start: Time, es: seq<Event>, n: nat, i: nat,
                                                   ok: bool, key: Key, t: Time, j: nat, xid: u32, prog: u32)
    requires ForwardRun(Initially(retention, start), es)
    requires ReadAt(Initially(retention, start), es, n, i, key, t, ok)
    requires var u := After(Initially(retention, start), es);
             && Enabled(u, Check(j)) && Classify(u.tasks[j].record) == Tracked(xid, prog)
             && key == (xid, u.tasks[j].client) && u.now <= t + retention
    ensures Step(After(Initially(retention, start), es), Check(j)).tasks[j].phase == Dropped
  {
    hide Classify, Step, After, ForwardRun, ReadAt;
    var s := Initially(retention, start);
    RetentionStays(s, es);
    assert WasRead(s, es, i, key, t);
    CheckedByReadings(retention, start, es, j, xid, prog);
  }

  lemma {:induction false} RetentionStays(s: System, es: seq<Event>)
    ensures After(s, es).retention == s.retention
    decreases |es|
  {
    hide Step;
    if es != [] {
      RetentionStep(s, es[0]);
      RetentionStays(Step(s, es[0]), es[1..]);
    }
  }

  lemma RetentionStep(s: System, e: Event)
    ensures Step(s, e).retention == s.retention
  {
    hide Classify;
  }

  // ---- stamps lie between the start of the call and now ----

  /** Each completion is stamped no earlier than its call started, and no later than now. */
  ghost predicate InOrder(s: System)
  {
    && (forall a | 0 <= a < |s.log| :: s.log[a].at <= s.now)
    && (forall a, c | 0 <= a < |s.log| && 0 <= c < |s.log| && s.log[a].Started? && s.log[c].Finished?
                      && s.log[a].task == s.log[c].task :: s.log[a].at <= s.log[c].at)
    && (forall i | 0 <= i < |s.tasks| && s.tasks[i].phase.Stamped? ::
          s.tasks[i].phase.stamp <= s.now
          && forall a | 0 <= a < |s.log| && s.log[a].Started? && s.log[a].task == i ::
               s.log[a].at <= s.tasks[i].phase.stamp)
  }

  lemma NoEntryYet(s: System, i: nat)
    requires Recorded(s) && Enabled(s, Check(i))
    ensures forall a | 0 <= a < |s.log| :: s.log[a].task != i
  {
    NotYetStarted(s, i);
    NoFinishWithoutStart(s.log, i);
    forall a | 0 <= a < |s.log| ensures s.log[a].task != i {
      var x := s.log[a];
      assert HasStart(s.log, x.task, x.key) || HasFinish(s.log, x.task, x.key);
    }
  }

  lemma AdmittedInOrder(s: System, i: nat, key: Key)
    requires Recorded(s) && InOrder(s) && Enabled(s, Check(i))
    ensures InOrder(Admitted(s, i, key))
  {
    hide Arrived, Recorded;
    NoEntryYet(s, i);
  }

  lemma MarkedInOrder(s: System, i: nat)
    requires InOrder(s) && Enabled(s, Mark(i))
    ensures InOrder(Marked(s, i))
  {
    hide Processed;
  }

  lemma StepInOrder(s: System, e: Event)
    requires Recorded(s) && InOrder(s) && Forward(s, e)
    ensures InOrder(Step(s, e))
  {
    hide Classify, Recorded, Admitted, Marked;
    if Enabled(s, e) {
      match e
      case Check(i) =>
        if Classify(s.tasks[i].record).Tracked? {
          AdmittedInOrder(s, i, (Classify(s.tasks[i].record).xid, s.tasks[i].client));
        }
      case Mark(i) => MarkedInOrder(s, i);
      case _ =>
    }
  }

  /** In every run under a nondecreasing clock completions are stamped between their call's start and now. */
  lemma {:induction false} RunInOrder(s: System, es: seq<Event>)
    requires Recorded(s) && InOrder(s) && ForwardRun(s, es)
    ensures InOrder(After(s, es))
    decreases |es|
  {
    hide Recorded, InOrder, Step;
    if es != [] {
      StepRecorded(s, es[0]);
      StepInOrder(s, es[0]);
      RunInOrder(Step(s, es[0]), es[1..]);
    }
  }

  lemma InitiallyInOrder(retention: nat, start: Time)
    ensures Recorded(Initially(retention, start)) && InOrder(Initially(retention, start))
  {}

  // ---- what is answered ----

  /** A task is where its record can have brought it: its key, and what it answers, follow from the record. */
  predicate Fitting(t: Task)
  {
    match t.phase
    case Spawned => true
    case Answering(None, ok) => AnsweredAtOnce(t, ok)
    case Answered(None, ok) => AnsweredAtOnce(t, ok)
    case Answering(Some(key), _) => IsKey(t, key)
    case Answered(Some(key), _) => IsKey(t, key)
    case Dropped => Classify(t.record).Tracked?
    case Executing(key) => IsKey(t, key)
    case Stamped(key, _, _) => IsKey(t, key)
    case Aborted(key) => IsKey(t, key)
  }

  /** The key is the call's xid and the client it came from. */
  predicate IsKey(t: Task, key: Key) { Classify(t.record).Tracked? && key == (Classify(t.record).xid, t.client) }

  /** A broken record is answered by an error, a call of another RPC version by a reply. */
  predicate AnsweredAtOnce(t: Task, ok: bool)
  {
    (Classify(t.record).Broken? && !ok) || (Classify(t.record).VersionMismatch? && ok)
  }

  lemma StepFitting(s: System, e: Event)
    requires forall i | 0 <= i < |s.tasks| :: Fitting(s.tasks[i])
    ensures forall i | 0 <= i < |Step(s, e).tasks| :: Fitting(Step(s, e).tasks[i])
  {
    hide Classify, Arrived, Processed;
  }

  /** In every run every task keeps to its record. */
  lemma {:induction false} TasksFit(s: System, es: seq<Event>)
    requires forall i | 0 <= i < |s.tasks| :: Fitting(s.tasks[i])
    ensures forall i | 0 <= i < |After(s, es).tasks| :: Fitting(After(s, es).tasks[i])
    decreases |es|
  {
    hide Step, Fitting;
    if es != [] {
      StepFitting(s, es[0]);
      TasksFit(Step(s, es[0]), es[1..]);
    }
  }

  /** Outcomes kept by tasks are those their handlers ended with. */
  ghost predicate OutcomesKept(s: System, es: seq<Event>)
  {
    var u := After(s, es);
    forall i, key, ok | 0 <= i < |u.tasks| && Outcome(u.tasks[i].phase, key, ok) :: EndedWith(s, es, i, key, ok)
  }

  predicate Outcome(p: Phase, key: Key, ok: bool)
  {
    match p
    case Stamped(k, o, _) => k == key && o == ok
    case Answering(call, o) => call == Some(key) && o == ok
    case Answered(call, o) => call == Some(key) && o == ok
    case _ => false
  }

  lemma StepOutcomes(s: System, e: Event, i: nat, key: Key, ok: bool)
    requires i < |Step(s, e).tasks| && Outcome(Step(s, e).tasks[i].phase, key, ok)
    ensures || (i < |s.tasks| && Outcome(s.tasks[i].phase, key, ok))
            || (e == ReadClock(i, ok) && Enabled(s, e) && HeldBy(s, i) == Some(key))
  {
    hide Classify, Arrived, Processed;
  }

  /** A tracked call is answered by a reply or an error as its own handler ended. */
  lemma {:induction false} AnsweredAsEnded(s: System, es: seq<Event>)
    requires s.tasks == []
    ensures OutcomesKept(s, es)
    decreases |es|
  {
    hide Step, Outcome, ReadAt, Enabled, HeldBy;
    if es != [] {
      var n := |es| - 1;
      AnsweredAsEnded(s, es[..n]);
      AfterLast(s, es);
      var u := After(s, es);
      forall i, key, ok | 0 <= i < |u.tasks| && Outcome(u.tasks[i].phase, key, ok)
        ensures EndedWith(s, es, i, key, ok)
      {
        StepOutcomes(After(s, es[..n]), es[n], i, key, ok);
        if EndedWith(s, es[..n], i, key, ok) {
          var k: nat, t :| ReadAt(s, es[..n], k, i, key, t, ok);
          ReadAtFront(s, es, k, i, key, t, ok);
        } else {
          ReadAtFront(s, es, n, i, key, After(s, es[..n]).now, ok);
        }
      }
    }
  }

  // ---- one task on its own ----

  lemma {:induction false} AfterFirst(s: System, e: Event, es: seq<Event>)
    ensures After(s, [e] + es) == After(Step(s, e), es)
  {
    assert ([e] + es)[1..] == es;
  }

  /**
   A record whose task is not interrupted: the table and the message are those of handle_rpc, which checks at the
   clock's reading then, and stamps with a reading taken when the program's handler is done.
   */
  lemma {:induction false} HandledAtOnce(s: System, client: string, record: seq<byte>, finish: Time, ok: bool)
    ensures var n := |s.tasks|;
            match Classify(record)
            case Tracked(xid, _) =>
              var (table, seen) := Arrived(s.table, (xid, client), s.retention, s.now);
              if seen then
                var t := After(s, [Arrive(client, record)] + [Check(n)]);
                t.table == table && t.queue == s.queue && t.tasks == s.tasks + [Task(client, record, Dropped)]
              else
                var t := After(s, [Arrive(client, record)] + ([Check(n)] + ([SetClock(finish)]
                               + ([ReadClock(n, ok)] + ([Mark(n)] + [Answer(n)])))));
                t.table == table[(xid, client) := Completed(finish)] && t.queue == s.queue + [Message(client, n, ok)]
            case verdict =>
              var t := After(s, [Arrive(client, record)] + ([Check(n)] + [Answer(n)]));
              t.table == s.table && t.queue == s.queue + [Message(client, n, verdict.VersionMismatch?)]
  {
    hide Classify, After;
    var n := |s.tasks|;
    var s1 := Step(s, Arrive(client, record));
    var s2 := Step(s1, Check(n));
    JustOne(s2, Answer(n));
    JustOne(s1, Check(n));
    AfterFirst(s, Arrive(client, record), [Check(n)]);
    AfterFirst(s, Arrive(client, record), [Check(n)] + [Answer(n)]);
    AfterFirst(s1, Check(n), [Answer(n)]);
    var s3 := Step(s2, SetClock(finish));
    var s4 := Step(s3, ReadClock(n, ok));
    var s5 := Step(s4, Mark(n));
    AfterFirst(s, Arrive(client, record),
               [Check(n)] + ([SetClock(finish)] + ([ReadClock(n, ok)] + ([Mark(n)] + [Answer(n)]))));
    AfterFirst(s1, Check(n), [SetClock(finish)] + ([ReadClock(n, ok)] + ([Mark(n)] + [Answer(n)])));
    AfterFirst(s2, SetClock(finish), [ReadClock(n, ok)] + ([Mark(n)] + [Answer(n)]));
    AfterFirst(s3, ReadClock(n, ok), [Mark(n)] + [Answer(n)]);
    AfterFirst(s4, Mark(n), [Answer(n)]);
    JustOne(s5, Answer(n));
  }

  lemma {:induction false} JustOne(s: System, e: Event)
    ensures After(s, [e]) == Step(s, e)
  {
    assert After(Step(s, e), [e][1..]) == Step(s, e);
  }
}
