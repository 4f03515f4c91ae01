/** Nothing is lost and nothing answered twice: records, replies, errors, drops and tasks in flight add up. */
module TaskConservation {
  import opened Bytes
  import opened Tracker
  import opened RpcWire
  import opened Tasks

  // ---- counting ----

  datatype Kind =
    | Sent(client: string, ok: bool)
    | DroppedCall(client: string)
    | InFlight(client: string)
    | Panicked(client: string)
    | From(client: string)
    | Ran(key: Key)        // carries, or carried, an execution of the key
    | RepliedTo(key: Key)

  predicate Is(t: Task, kind: Kind)
  {
    var p := t.phase;
    match kind
    case Sent(client, ok) => t.client == client && p.Answered? && p.ok == ok
    case DroppedCall(client) => t.client == client && p.Dropped?
    case Panicked(client) => t.client == client && p.Aborted?
    case InFlight(client) => t.client == client && !p.Answered? && !p.Dropped? && !p.Aborted?
    case From(client) => t.client == client
    case Ran(key) => Held(p) == Some(key) || ((p.Answering? || p.Answered?) && p.call == Some(key))
    case RepliedTo(key) => p.Answered? && p.call == Some(key)
  }

  function Count(tasks: seq<Task>, kind: Kind): nat
  {
    if tasks == [] then 0
    else Count(tasks[..|tasks| - 1], kind) + if Is(tasks[|tasks| - 1], kind) then 1 else 0
  }

  lemma {:induction false} CountUpdate(tasks: seq<Task>, i: nat, t: Task, kind: Kind)
    requires i < |tasks|
    ensures Count(tasks[i := t], kind)
         == Count(tasks, kind) - (if Is(tasks[i], kind) then 1 else 0) + (if Is(t, kind) then 1 else 0)
    decreases |tasks|
  {
    hide Is;
    var n := |tasks| - 1;
    if i == n {
      assert tasks[i := t][..n] == tasks[..n];
    } else {
      assert tasks[i := t][..n] == tasks[..n][i := t];
      CountUpdate(tasks[..n], i, t, kind);
    }
  }

  lemma {:induction false} CountPush(tasks: seq<Task>, t: Task, kind: Kind)
    ensures Count(tasks + [t], kind) == Count(tasks, kind) + if Is(t, kind) then 1 else 0
  {
    assert (tasks + [t])[..|tasks|] == tasks;
  }

  lemma {:induction false} CountWithin(tasks: seq<Task>, kind: Kind, wider: Kind)
    requires forall t | Is(t, kind) :: Is(t, wider)
    ensures Count(tasks, kind) <= Count(tasks, wider)
    decreases |tasks|
  {
    if tasks != [] { CountWithin(tasks[..|tasks| - 1], kind, wider); }
  }

  /** The kinds of a connection's tasks do not overlap and leave none out. */
  lemma {:induction false} CountAll(tasks: seq<Task>, client: string)
    ensures Count(tasks, From(client))
         == Count(tasks, Sent(client, true)) + Count(tasks, Sent(client, false)) + Count(tasks, DroppedCall(client))
          + Count(tasks, InFlight(client)) + Count(tasks, Panicked(client))
    decreases |tasks|
  {
    if tasks != [] { CountAll(tasks[..|tasks| - 1], client); }
  }

  lemma {:induction false} CountInto(s: System, i: nat, p: Phase, kind: Kind)
    requires i < |s.tasks|
    ensures Count(Into(s, i, p).tasks, kind)
         == Count(s.tasks, kind) - (if Is(s.tasks[i], kind) then 1 else 0)
          + (if Is(s.tasks[i].(phase := p), kind) then 1 else 0)
  {
    CountUpdate(s.tasks, i, s.tasks[i].(phase := p), kind);
  }

  // ---- the queues ----

  /** The replies, or the errors, queued on a connection. */
  function Queue(queue: seq<Message>, client: string, ok: bool): nat
  {
    if queue == [] then 0
    else
      var m := queue[|queue| - 1];
      Queue(queue[..|queue| - 1], client, ok) + if m.client == client && m.ok == ok then 1 else 0
  }

  lemma {:induction false} QueuePush(queue: seq<Message>, m: Message, client: string, ok: bool)
    ensures Queue(queue + [m], client, ok)
         == Queue(queue, client, ok) + if m.client == client && m.ok == ok then 1 else 0
  {
    assert (queue + [m])[..|queue|] == queue;
  }

  predicate Answers(s: System, m: Message)
  {
    m.task < |s.tasks| && s.tasks[m.task].phase.Answered? && s.tasks[m.task].phase.ok == m.ok
    && s.tasks[m.task].client == m.client
  }

  /** Every message queued answers a task of its own, on the task's connection and as its call went. */
  ghost predicate AnsweredOnce(s: System)
  {
    && (forall q | 0 <= q < |s.queue| :: Answers(s, s.queue[q]))
    && (forall q, r | 0 <= q < r < |s.queue| :: s.queue[q].task != s.queue[r].task)
  }

  /** As many replies and errors are queued on the connection as its tasks were answered with. */
  ghost predicate Queued(s: System, client: string)
  {
    forall ok :: Queue(s.queue, client, ok) == Count(s.tasks, Sent(client, ok))
  }

  lemma StepAnsweredOnce(s: System, e: Event)
    requires AnsweredOnce(s)
    ensures AnsweredOnce(Step(s, e))
  {
    hide Classify, Arrived, Processed;
    var t := Step(s, e);
    if Enabled(s, e) && e.Answer? {
      var i := e.task;
      assert forall q | 0 <= q < |s.queue| :: Answers(s, s.queue[q]) && Answers(t, s.queue[q]);
    } else {
      assert t.queue == s.queue;
      assert forall q | 0 <= q < |s.queue| :: Answers(s, s.queue[q]) && Answers(t, s.queue[q]);
    }
  }

  lemma MovedQueued(s: System, e: Event, i: nat, client: string)
    requires Queued(s, client) && Enabled(s, e)
    requires e == Check(i) || (e.ReadClock? && e.task == i) || e == Mark(i) || e == Answer(i) || e == Abort(i)
    ensures Queued(Step(s, e), client)
  {
    hide Count, Queue, Classify, Arrived, Processed;
    var t := Step(s, e);
    forall ok ensures Queue(t.queue, client, ok) == Count(t.tasks, Sent(client, ok)) {
      CountInto(s, i, t.tasks[i].phase, Sent(client, ok));
      if e.Answer? { QueuePush(s.queue, t.queue[|s.queue|], client, ok); }
    }
  }

  lemma StepQueued(s: System, e: Event, client: string)
    requires Queued(s, client)
    ensures Queued(Step(s, e), client)
  {
    hide Count, Queue;
    if Enabled(s, e) {
      match e
      case Arrive(from, record) =>
        CountPush(s.tasks, Task(from, record, Spawned), Sent(client, true));
        CountPush(s.tasks, Task(from, record, Spawned), Sent(client, false));
      case SetClock(_) =>
      case Check(i) => MovedQueued(s, e, i, client);
      case ReadClock(i, _) => MovedQueued(s, e, i, client);
      case Mark(i) => MovedQueued(s, e, i, client);
      case Answer(i) => MovedQueued(s, e, i, client);
      case Abort(i) => MovedQueued(s, e, i, client);
    }
  }

  /**
   At every step of every interleaving, on every connection: records completed equal replies queued, errors
   queued, calls dropped, tasks in flight and tasks that panicked; and no task is answered twice.
   */
  lemma {:induction false} RecordsConserved(s: System, es: seq<Event>, client: string)
    requires AnsweredOnce(s) && Queued(s, client)
    ensures var t := After(s, es);
            && AnsweredOnce(t)
            && Count(t.tasks, From(client))
               == Queue(t.queue, client, true) + Queue(t.queue, client, false) + Count(t.tasks, DroppedCall(client))
                + Count(t.tasks, InFlight(client)) + Count(t.tasks, Panicked(client))
    decreases |es|
  {
    hide Step, Count, Queue, AnsweredOnce;
    if es != [] {
      StepAnsweredOnce(s, es[0]);
      StepQueued(s, es[0], client);
      RecordsConserved(Step(s, es[0]), es[1..], client);
    } else {
      CountAll(s.tasks, client);
    }
  }

  // ---- replies and executions of one key ----

  function Starts(log: seq<LogEntry>, key: Key): nat
  {
    if log == [] then 0
    else
      var x := log[|log| - 1];
      Starts(log[..|log| - 1], key) + if x.Started? && x.key == key then 1 else 0
  }

  lemma {:induction false} StartsPush(log: seq<LogEntry>, x: LogEntry, key: Key)
    ensures Starts(log + [x], key) == Starts(log, key) + if x.Started? && x.key == key then 1 else 0
  {
    assert (log + [x])[..|log|] == log;
  }

  /** Every execution started is one task's, in progress or answered. */
  ghost predicate Balanced(s: System, key: Key)
  {
    Starts(s.log, key) == Count(s.tasks, Ran(key))
  }

  lemma MovedBalanced(s: System, e: Event, i: nat, key: Key)
    requires Balanced(s, key) && Enabled(s, e)
    requires e == Check(i) || (e.ReadClock? && e.task == i) || e == Mark(i) || e == Answer(i) || e == Abort(i)
    ensures Balanced(Step(s, e), key)
  {
    hide Count, Starts, Classify, Arrived, Processed;
    var t := Step(s, e);
    CountInto(s, i, t.tasks[i].phase, Ran(key));
    if t.log != s.log { StartsPush(s.log, t.log[|s.log|], key); }
  }

  lemma StepBalanced(s: System, e: Event, key: Key)
    requires Balanced(s, key)
    ensures Balanced(Step(s, e), key)
  {
    hide Count, Starts;
    if Enabled(s, e) {
      match e
      case Arrive(client, record) => CountPush(s.tasks, Task(client, record, Spawned), Ran(key));
      case SetClock(_) =>
      case Check(i) => MovedBalanced(s, e, i, key);
      case ReadClock(i, _) => MovedBalanced(s, e, i, key);
      case Mark(i) => MovedBalanced(s, e, i, key);
      case Answer(i) => MovedBalanced(s, e, i, key);
      case Abort(i) => MovedBalanced(s, e, i, key);
    }
  }

  /** Answers to tracked calls of a key never exceed its executions. */
  lemma {:induction false} RepliesWithinExecutions(s: System, es: seq<Event>, key: Key)
    requires Balanced(s, key)
    ensures var t := After(s, es); Count(t.tasks, RepliedTo(key)) <= Starts(t.log, key)
    decreases |es|
  {
    hide Step, Count, Starts;
    if es != [] {
      StepBalanced(s, es[0], key);
      RepliesWithinExecutions(Step(s, es[0]), es[1..], key);
    } else {
      CountWithin(s.tasks, RepliedTo(key), Ran(key));
    }
  }

  lemma InitiallyConserved(retention: nat, now: Time, client: string, key: Key)
    ensures var s := Initially(retention, now); AnsweredOnce(s) && Queued(s, client) && Balanced(s, key)
  {}
}
