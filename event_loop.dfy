/**
 * The readiness loop's own logic: turning one read from a ready channel into a
 * prioritised task (or a teardown), registering new connections, and draining the
 * task queue highest priority first.
 *
 * The poll wait, the read and close system calls and the logging are outside the
 * model: the result of the read is the parameter `n` plus the characters received.
 */
module Events {
  import opened Basics

  /** The marker whose presence makes a request elevated. */
  const PRIORITY_MARKER: string := "X-Priority: High"

  /** Bytes one read may deliver: the 4096-byte buffer minus its terminating NUL. */
  const READ_CAPACITY: nat := 4095

  /** A unit of work: priority 1 (elevated) or 0 (normal), the origin fd, the bytes read. */
  datatype Task = Task(priority: int, fd: int, data: string)

  /** Task::operator<, the priority queue's ordering: priorities only. */
  predicate TaskLess(a: Task, b: Task)
  {
    a.priority < b.priority
  }

  /** One socket's registration: descriptor, interest mask, observed events. */
  datatype Channel = Channel(fd: int, events: int, revents: int)

  /** std::string(buf): the characters before the first NUL. */
  function UntilNul(s: string): (r: string)
    ensures |r| <= |s| && r == s[..|r|]
    ensures forall i :: 0 <= i < |r| ==> r[i] != '\0'
    ensures |r| < |s| ==> s[|r|] == '\0'
  {
    if s == [] || s[0] == '\0' then [] else [s[0]] + UntilNul(s[1..])
  }

  /** The task a successful read of `received` on `fd` becomes. */
  function MakeTask(fd: int, received: string): (t: Task)
    ensures t.fd == fd && t.data == UntilNul(received)
    ensures t.priority == 0 || t.priority == 1
    ensures t.priority == 1 <==> Contains(t.data, PRIORITY_MARKER)
  {
    var data := UntilNul(received);
    Task(if Contains(data, PRIORITY_MARKER) then 1 else 0, fd, data)
  }

  /** `t` is a task of `q` that no task of `q` outranks: what top() may return. */
  predicate IsTop(t: Task, q: multiset<Task>)
  {
    t in q && forall u :: u in q ==> !TaskLess(t, u)
  }

  /** Every non-empty queue has a top: a task of maximal priority. */
  lemma {:induction false} TopExists(q: multiset<Task>)
    requires q != multiset{}
    ensures exists t :: IsTop(t, q)
    decreases |q|
  {
    var x :| x in q;
    var rest := q - multiset{x};
    assert forall u :: u in q ==> u == x || u in rest;
    if rest == multiset{} {
      assert IsTop(x, q);
    } else {
      TopExists(rest);
      var t :| IsTop(t, rest);
      if TaskLess(t, x) {
        assert IsTop(x, q);
      } else {
        assert IsTop(t, q);
      }
    }
  }

  /** Processing order never lets a lower priority go before a higher one. */
  predicate NonIncreasing(ts: seq<Task>)
  {
    forall i, j :: 0 <= i < j < |ts| ==> !TaskLess(ts[i], ts[j])
  }

  /**
   * In a non-increasing order every elevated task precedes every normal one: arrivals
   * normal A, elevated B, normal C, elevated D are processed as B and D (in either
   * order) before A and C (in either order).
   */
  lemma ElevatedBeforeNormal(ts: seq<Task>, i: nat, j: nat)
    requires NonIncreasing(ts) && i < |ts| && j < |ts|
    requires ts[i].priority == 1 && ts[j].priority == 0
    ensures i < j
  {
  }

  class EventLoop {
    /** The registered channels, in registration order (the poller's table). */
    var channels: seq<Channel>
    var taskQueue: multiset<Task>

    constructor()
      ensures channels == [] && taskQueue == multiset{}
    {
      channels := [];
      taskQueue := multiset{};
    }

    /** addConnection: registers one channel for `fd` with interest mask 1. */
    method AddConnection(fd: int)
      modifies this
      ensures channels == old(channels) + [Channel(fd, 1, 0)]
      ensures taskQueue == old(taskQueue)
    {
      channels := channels + [Channel(fd, 1, 0)];
    }

    /**
     * One ready channel in one loop iteration. The read returned `n`, delivering
     * `received` when positive: that is enqueued as one task. Zero means the peer
     * closed: the channel is unregistered. A negative result changes nothing.
     */
    method HandleRead(k: nat, n: int, received: string)
      requires k < |channels|
      requires n > 0 ==> |received| == n <= READ_CAPACITY
      modifies this
      ensures n > 0 ==>
        taskQueue == old(taskQueue) + multiset{MakeTask(old(channels)[k].fd, received)} &&
        channels == old(channels)
      ensures n == 0 ==>
        channels == old(channels)[..k] + old(channels)[k + 1..] && taskQueue == old(taskQueue)
      ensures n < 0 ==> channels == old(channels) && taskQueue == old(taskQueue)
    {
      if n > 0 {
        var request := UntilNul(received);
        var prio := 0;
        var found := Find(request, PRIORITY_MARKER);
        if found.Some? {
          prio := 1;
        }
        taskQueue := taskQueue + multiset{Task(prio, channels[k].fd, request)};
      } else if n == 0 {
        channels := channels[..k] + channels[k + 1..];
      }
    }

    /** top() then pop(): removes and returns a task of maximal priority. */
    method PopTop() returns (t: Task)
      requires taskQueue != multiset{}
      modifies this
      ensures IsTop(t, old(taskQueue))
      ensures taskQueue == old(taskQueue) - multiset{t}
      ensures channels == old(channels)
    {
      TopExists(taskQueue);
      t :| IsTop(t, taskQueue);
      taskQueue := taskQueue - multiset{t};
    }

    /**
     * processPendingTasks: pops until the queue is empty. Returns the tasks in the
     * order processed: exactly the queued tasks, highest priority first.
     */
    method ProcessPendingTasks() returns (processed: seq<Task>)
      modifies this
      ensures taskQueue == multiset{}
      ensures multiset(processed) == old(taskQueue)
      ensures NonIncreasing(processed)
      ensures channels == old(channels)
    {
      processed := [];
      while taskQueue != multiset{}
        invariant multiset(processed) + taskQueue == old(taskQueue)
        invariant NonIncreasing(processed)
        invariant forall i, u :: 0 <= i < |processed| && u in taskQueue ==> !TaskLess(processed[i], u)
        invariant channels == old(channels)
        decreases |taskQueue|
      {
        ghost var before := taskQueue;
        var t := PopTop();
        assert forall u :: u in taskQueue ==> u in before;
        processed := processed + [t];
      }
    }
  }
}
