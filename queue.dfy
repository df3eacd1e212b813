/** The task queue: tasks are pushed one at a time or in batches, started in
    push order while fewer than `concurrency` of them are running, and each
    one's settled processor call is reported as exactly one `complete` or
    `error` event.

    The scheduler that async.queue provides is written out here as explicit
    steps (`StartNext`, `Process`, `Settle`, `Drain`) that the caller drives;
    the processor's outcome for a task is passed to `Settle`, and the list of
    notified events stands for the subscribers. */
module TaskQueue {
  import opened Options

  /** What one `push` accepts: a single task or an array of tasks. */
  datatype Input<T> = Single(task: T) | Batch(tasks: seq<T>)

  /** How the processor's promise for one task settled. */
  datatype Outcome<R, E> = Fulfilled(result: R) | Rejected(error: E)

  datatype QueueEvent<T, R, E> = Complete(task: T, result: R) | Error(task: T, error: E)

  /** Where one pushed task is in its life: waiting in the queue, handed to
      the processor, or finished with the event at the given index of the log. */
  datatype TaskState = Waiting | Active | Settled(event: nat)

  /** The tasks one `push` enqueues, in order. */
  function Tasks<T>(input: Input<T>): (tasks: seq<T>)
    ensures input.Single? ==> tasks == [input.task]
    ensures input.Batch? ==> tasks == input.tasks
  {
    match input
    case Single(task) => [task]
    case Batch(tasks) => tasks
  }

  /** The one terminal event for a task whose processor call settled. */
  function EventFor<T, R, E>(task: T, outcome: Outcome<R, E>): (e: QueueEvent<T, R, E>)
    ensures e.task == task
    ensures e.Complete? <==> outcome.Fulfilled?
    ensures e.Complete? ==> e.result == outcome.result
    ensures e.Error? ==> e.error == outcome.error
  {
    match outcome
    case Fulfilled(r) => Complete(task, r)
    case Rejected(err) => Error(task, err)
  }

  /** The events for running `tasks` to the end one after another, when
      `processor` gives each task's outcome. */
  function EventsOf<T, R, E>(tasks: seq<T>, processor: T -> Outcome<R, E>): (events: seq<QueueEvent<T, R, E>>)
    ensures |events| == |tasks|
  {
    if tasks == [] then [] else [EventFor(tasks[0], processor(tasks[0]))] + EventsOf(tasks[1..], processor)
  }

  /** The k-th event of a run reports the k-th task's own outcome, whatever
      the other tasks' outcomes were. */
  lemma {:induction false} EventsOfAt<T, R, E>(tasks: seq<T>, processor: T -> Outcome<R, E>, k: nat)
    requires k < |tasks|
    ensures EventsOf(tasks, processor)[k] == EventFor(tasks[k], processor(tasks[k]))
    decreases k
  {
    if k > 0 {
      EventsOfAt(tasks[1..], processor, k - 1);
    }
  }

  lemma EventsOfCons<T, R, E>(head: T, rest: seq<T>, processor: T -> Outcome<R, E>)
    ensures EventsOf([head] + rest, processor) == [EventFor(head, processor(head))] + EventsOf(rest, processor)
  {
    assert ([head] + rest)[1..] == rest;
  }

  /** Settling the head of a run moves its event from the part still to
      come into the log, leaving the whole unchanged. */
  lemma RunStep<T, R, E>(logged: seq<QueueEvent<T, R, E>>, head: T, rest: seq<T>, processor: T -> Outcome<R, E>)
    ensures logged + EventsOf([head] + rest, processor)
         == (logged + [EventFor(head, processor(head))]) + EventsOf(rest, processor)
  {
    EventsOfCons(head, rest, processor);
  }

  /** Three tasks where the middle one fails: the other two still complete,
      and the events come in push order. */
  lemma FailureIsolation<T, R, E>(a: T, b: T, c: T, processor: T -> Outcome<R, E>)
    requires processor(a).Fulfilled? && processor(b).Rejected? && processor(c).Fulfilled?
    ensures EventsOf([a, b, c], processor)
         == [Complete(a, processor(a).result), Error(b, processor(b).error), Complete(c, processor(c).result)]
  {
    var tasks := [a, b, c];
    EventsOfAt(tasks, processor, 0);
    EventsOfAt(tasks, processor, 1);
    EventsOfAt(tasks, processor, 2);
  }

  /** Removes the element at index `i`. */
  function RemoveAt<X>(s: seq<X>, i: nat): (r: seq<X>)
    requires i < |s|
    ensures |r| == |s| - 1
    ensures forall j :: 0 <= j < i ==> r[j] == s[j]
    ensures forall j :: i <= j < |r| ==> r[j] == s[j + 1]
  {
    s[..i] + s[i + 1..]
  }

  /** The queue's invariant, over the values of its fields. A task's ticket
      is its index in `pushed`: the tickets below `started` have been handed
      to the processor, each is either running (listed once in
      `runningTickets`) or settled with exactly one event, and `eventTickets`
      names, for each event, the ticket it reports on. */
  ghost predicate Consistent<T, R, E>(concurrency: nat, pending: seq<T>, running: seq<T>,
                                      events: seq<QueueEvent<T, R, E>>, pushed: seq<T>, started: nat,
                                      state: seq<TaskState>, runningTickets: seq<nat>, eventTickets: seq<nat>)
  {
    1 <= concurrency && |running| <= concurrency
    && started <= |pushed| && |state| == |pushed|
    && pending == pushed[started..]
    && |runningTickets| == |running| && |eventTickets| == |events|
    && started == |running| + |events|
    && (forall t :: 0 <= t < |state| ==> (state[t] == Waiting <==> started <= t))
    && (forall k :: 0 <= k < |running| ==>
          runningTickets[k] < |state| && state[runningTickets[k]] == Active
          && running[k] == pushed[runningTickets[k]])
    && (forall t :: 0 <= t < |state| && state[t] == Active ==> t in runningTickets)
    && (forall i, j :: 0 <= i < j < |runningTickets| ==> runningTickets[i] != runningTickets[j])
    && (forall k :: 0 <= k < |events| ==>
          eventTickets[k] < |state| && state[eventTickets[k]] == Settled(k)
          && events[k].task == pushed[eventTickets[k]])
    && (forall t :: 0 <= t < |state| && state[t].Settled? ==>
          state[t].event < |events| && eventTickets[state[t].event] == t)
    && (concurrency == 1 ==> forall k :: 0 <= k < |events| ==> eventTickets[k] == k)
  }

  /** Settling the running task at `slot` keeps the invariant. */
  lemma SettleConsistent<T, R, E>(concurrency: nat, pending: seq<T>, running: seq<T>,
                                  events: seq<QueueEvent<T, R, E>>, pushed: seq<T>, started: nat,
                                  state: seq<TaskState>, runningTickets: seq<nat>, eventTickets: seq<nat>,
                                  slot: nat, outcome: Outcome<R, E>)
    requires Consistent(concurrency, pending, running, events, pushed, started, state, runningTickets, eventTickets)
    requires slot < |running|
    ensures slot < |runningTickets|
    ensures Consistent(concurrency, pending, RemoveAt(running, slot), events + [EventFor(running[slot], outcome)],
                       pushed, started, state[runningTickets[slot] := Settled(|events|)],
                       RemoveAt(runningTickets, slot), eventTickets + [runningTickets[slot]])
  {
    var t, k := runningTickets[slot], |events|;
    assert concurrency == 1 ==> t == k by {
      if concurrency == 1 {
        assert slot == 0 && |running| == 1;
        assert state[t] == Active;
        forall j | 0 <= j < k ensures state[j] == Settled(j) {
          assert eventTickets[j] == j;
        }
      }
    }
    var state', tickets' := state[t := Settled(k)], RemoveAt(runningTickets, slot);
    forall u | 0 <= u < |state'| && state'[u] == Active ensures u in tickets' {
      var j :| 0 <= j < |runningTickets| && runningTickets[j] == u;
      if j < slot {
        assert tickets'[j] == u;
      } else {
        assert j != slot;
        assert tickets'[j - 1] == u;
      }
    }
  }

  class Queue<T, R, E> {
    const concurrency: nat
    /** Pushed tasks not yet handed to the processor, oldest first. */
    var pending: seq<T>
    /** Tasks whose processor call has not settled, in start order. */
    var running: seq<T>
    /** Every event notified so far. */
    var events: seq<QueueEvent<T, R, E>>

    /** Every task ever pushed; a task's ticket is its index here. */
    ghost var pushed: seq<T>
    /** How many tickets have been started. */
    ghost var started: nat
    ghost var state: seq<TaskState>
    /** The ticket of each running task. */
    ghost var runningTickets: seq<nat>
    /** The ticket each event reports on. */
    ghost var eventTickets: seq<nat>

    ghost predicate Valid()
      reads this
    {
      Consistent(concurrency, pending, running, events, pushed, started, state, runningTickets, eventTickets)
    }

    /** A new queue, idle: nothing pending, running or notified. */
    constructor (concurrency: nat := 1)
      requires 1 <= concurrency
      ensures Valid() && this.concurrency == concurrency
      ensures pending == [] && running == [] && events == [] && pushed == []
    {
      this.concurrency := concurrency;
      pending, running, events := [], [], [];
      pushed, started, state, runningTickets, eventTickets := [], 0, [], [], [];
    }

    /** One task joins the back of the queue; nothing starts and nothing is notified. */
    method Enqueue(task: T)
      requires Valid()
      modifies this
      ensures Valid()
      ensures pending == old(pending) + [task] && pushed == old(pushed) + [task]
      ensures running == old(running) && events == old(events) && started == old(started)
      ensures state == old(state) + [Waiting]
      ensures runningTickets == old(runningTickets) && eventTickets == old(eventTickets)
    {
      assert (pushed + [task])[started..] == pushed[started..] + [task];
      pending := pending + [task];
      pushed := pushed + [task];
      state := state + [Waiting];
    }

    /** Enqueues a single task, or each task of an array in array order,
        behind the tasks already pending; emits no event. */
    method Push(input: Input<T>)
      requires Valid()
      modifies this
      ensures Valid()
      ensures input.Single? ==> pending == old(pending) + [input.task]
      ensures input.Batch? ==> pending == old(pending) + input.tasks
      ensures pushed == old(pushed) + Tasks(input)
      ensures running == old(running) && events == old(events) && started == old(started)
      ensures runningTickets == old(runningTickets) && eventTickets == old(eventTickets)
    {
      var tasks := Tasks(input);
      for i := 0 to |tasks|
        invariant Valid()
        invariant pending == old(pending) + tasks[..i] && pushed == old(pushed) + tasks[..i]
        invariant running == old(running) && events == old(events) && started == old(started)
        invariant runningTickets == old(runningTickets) && eventTickets == old(eventTickets)
      {
        assert tasks[..i + 1] == tasks[..i] + [tasks[i]];
        Enqueue(tasks[i]);
      }
      assert tasks[..|tasks|] == tasks;
    }

    /** Hands the oldest pending task to the processor; a slot must be free. */
    method StartNext() returns (task: T)
      requires Valid() && |running| < concurrency && pending != []
      modifies this
      ensures Valid()
      ensures task == old(pending)[0] && pending == old(pending)[1..] && running == old(running) + [task]
      ensures events == old(events) && pushed == old(pushed) && started == old(started) + 1
      ensures runningTickets == old(runningTickets) + [old(started)] && eventTickets == old(eventTickets)
      ensures state == old(state)[old(started) := Active]
    {
      task := pending[0];
      assert task == pushed[started];
      state := state[started := Active];
      runningTickets := runningTickets + [started];
      started := started + 1;
      running := running + [task];
      pending := pending[1..];
    }

    /** Starts pending tasks, oldest first, until every slot is taken or
        nothing is pending. */
    method Process()
      requires Valid()
      modifies this
      ensures Valid()
      ensures var n := Min(concurrency - |old(running)|, |old(pending)|);
        running == old(running) + old(pending)[..n] && pending == old(pending)[n..]
      ensures running + pending == old(running) + old(pending)
      ensures pending != [] ==> |running| == concurrency
      ensures events == old(events) && pushed == old(pushed) && eventTickets == old(eventTickets)
    {
      ghost var n := 0;
      ghost var P := pending;
      while |running| < concurrency && pending != []
        invariant Valid()
        invariant 0 <= n <= |P| && |old(running)| + n <= concurrency
        invariant running == old(running) + P[..n] && pending == P[n..]
        invariant |running| == |old(running)| + n && |pending| == |P| - n
        invariant events == old(events) && pushed == old(pushed) && eventTickets == old(eventTickets)
        decreases |pending|
      {
        var task := StartNext();
        TakeOneMore(P, n);
        n := n + 1;
      }
      assert n == Min(concurrency - |old(running)|, |P|);
      SplitAt(old(running), P, n);
    }

    /** The processor call of the running task at `slot` settled with
        `outcome`: its slot frees and exactly one event is notified, `complete`
        for a fulfilled call and `error` for a rejected one. */
    method Settle(slot: nat, outcome: Outcome<R, E>)
      requires Valid() && slot < |running|
      modifies this
      ensures Valid()
      ensures events == old(events) + [EventFor(old(running)[slot], outcome)]
      ensures running == RemoveAt(old(running), slot)
      ensures pending == old(pending) && pushed == old(pushed) && started == old(started)
      ensures state == old(state)[old(runningTickets)[slot] := Settled(|old(events)|)]
    {
      SettleConsistent(concurrency, pending, running, events, pushed, started, state, runningTickets, eventTickets,
                       slot, outcome);
      var task := running[slot];
      ghost var t := runningTickets[slot];
      state := state[t := Settled(|events|)];
      eventTickets := eventTickets + [t];
      events := events + [EventFor(task, outcome)];
      running := RemoveAt(running, slot);
      runningTickets := RemoveAt(runningTickets, slot);
    }

    /** What the queue does when a processor call settles: report it, free
        its slot, and start pending tasks into the free slots. */
    method Finish(slot: nat, outcome: Outcome<R, E>)
      requires Valid() && slot < |running|
      modifies this
      ensures Valid()
      ensures events == old(events) + [EventFor(old(running)[slot], outcome)]
      ensures var n := Min(concurrency - (|old(running)| - 1), |old(pending)|);
        running == RemoveAt(old(running), slot) + old(pending)[..n] && pending == old(pending)[n..]
      ensures running + pending == RemoveAt(old(running), slot) + old(pending)
      ensures old(pending) != [] ==> |pending| < |old(pending)|
      ensures pending != [] ==> |running| == concurrency
      ensures pushed == old(pushed)
    {
      Settle(slot, outcome);
      Process();
    }

    /** One turn of the scheduler: the oldest running task settles with the
        outcome `processor` gives it, and pending tasks fill the free slot.
        The events notified so far, followed by those still to come when
        everything left runs in order, stay the same. */
    method SettleOldest(processor: T -> Outcome<R, E>)
      requires Valid() && running != []
      modifies this
      ensures Valid()
      ensures events + EventsOf(running + pending, processor)
           == old(events) + EventsOf(old(running) + old(pending), processor)
      ensures |running| + |pending| == |old(running)| + |old(pending)| - 1
      ensures pending != [] ==> |running| == concurrency
      ensures pushed == old(pushed)
    {
      var head := running[0];
      ghost var rest := RemoveAt(running, 0) + pending;
      ghost var logged := events;
      assert running + pending == [head] + rest;
      Finish(0, processor(head));
      RunStep(logged, head, rest, processor);
    }

    /** Lets the scheduler run until the queue is idle, settling the oldest
        running task each time, with `processor` giving each task's outcome:
        every task that was running or pending gets its event, in start order. */
    method Drain(processor: T -> Outcome<R, E>)
      requires Valid()
      modifies this
      ensures Valid() && pending == [] && running == []
      ensures events == old(events) + EventsOf(old(running) + old(pending), processor)
      ensures pushed == old(pushed)
    {
      ghost var goal := events + EventsOf(running + pending, processor);
      Process();
      while running != []
        invariant Valid()
        invariant pending != [] ==> |running| == concurrency
        invariant events + EventsOf(running + pending, processor) == goal
        invariant pushed == old(pushed)
        decreases |running| + |pending|
      {
        SettleOldest(processor);
      }
    }

    /** No task is ever reported twice: distinct events belong to distinct pushes. */
    lemma AtMostOnce()
      requires Valid()
      ensures forall i, j :: 0 <= i < j < |events| ==> eventTickets[i] != eventTickets[j]
    {
      forall i, j | 0 <= i < j < |events| ensures eventTickets[i] != eventTickets[j] {
        assert state[eventTickets[i]] == Settled(i);
        assert state[eventTickets[j]] == Settled(j);
      }
    }

    /** Once the queue is idle, every pushed task has been reported exactly once. */
    lemma IdleMeansAllReported()
      requires Valid() && pending == [] && running == []
      ensures |events| == |pushed|
      ensures forall t :: 0 <= t < |pushed| ==>
        state[t].Settled? && state[t].event < |events| && eventTickets[state[t].event] == t
    {
    }

    /** With one slot, the k-th event reports on the k-th pushed task. */
    lemma SequentialOrder()
      requires Valid() && concurrency == 1
      ensures forall k :: 0 <= k < |events| ==> events[k].task == pushed[k]
    {
    }
  }

  /** Moving the boundary between a prefix and the rest one element on. */
  lemma TakeOneMore<X>(s: seq<X>, n: nat)
    requires n < |s|
    ensures s[..n + 1] == s[..n] + [s[n]] && s[n..][1..] == s[n + 1..]
  {
  }

  /** Cutting `s` at `n` and joining the parts again, behind `a`, gives back `a + s`. */
  lemma SplitAt<X>(a: seq<X>, s: seq<X>, n: nat)
    requires n <= |s|
    ensures (a + s[..n]) + s[n..] == a + s
  {
    assert s[..n] + s[n..] == s;
  }

  function Min(a: int, b: int): int {
    if a < b then a else b
  }

  /** A JavaScript value, as far as its truthiness goes. */
  datatype JsValue = Undefined | Null | Bool(b: bool) | Number(n: int) | Str(s: string) | Object(id: nat)

  /** JavaScript's truthiness: exactly `undefined`, `null`, `false`, `0` and
      the empty string are falsy. */
  predicate Truthy(v: JsValue)
    ensures Truthy(v) <==> v !in {Undefined, Null, Bool(false), Number(0), Str("")}
  {
    match v
    case Undefined => false
    case Null => false
    case Bool(b) => b
    case Number(n) => n != 0
    case Str(s) => s != ""
    case Object(_) => true
  }

  /** The events notified for one settled task by the code as written: a
      fulfilled call notifies `complete` and calls back without an error; a
      rejected call passes its reason to the callback, which notifies `error`
      only when that reason is truthy. */
  function EventsAsWritten<T, R>(task: T, outcome: Outcome<R, JsValue>): (events: seq<QueueEvent<T, R, JsValue>>)
    ensures |events| <= 1
    ensures events == [] <==> outcome.Rejected? && !Truthy(outcome.error)
    ensures events != [] ==> events[0] == EventFor(task, outcome)
  {
    match outcome
    case Fulfilled(r) => [Complete(task, r)]
    case Rejected(err) => if Truthy(err) then [Error(task, err)] else []
  }

  /** As written, a processor that rejects with `undefined` or with the empty
      string leaves its task with no event at all. */
  lemma FalsyRejectionUnreported<T, R>(task: T)
    ensures EventsAsWritten<T, R>(task, Rejected(Undefined)) == []
    ensures EventsAsWritten<T, R>(task, Rejected(Str(""))) == []
  {
  }

  /** For every fulfilled call and every truthy rejection reason, such as the
      string the converter throws or an `Error` object, the code as written
      notifies exactly the event `EventFor` gives. */
  lemma AsWrittenAgreesOnTruthyReasons<T, R>(task: T, outcome: Outcome<R, JsValue>)
    requires outcome.Fulfilled? || Truthy(outcome.error)
    ensures EventsAsWritten(task, outcome) == [EventFor(task, outcome)]
  {
  }
}
