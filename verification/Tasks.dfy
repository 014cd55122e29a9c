// TaskManager: a queue of tasks without duplicates, served by one worker.
module Tasks {
  import opened Octets
  import opened Allocator

  function Enqueue(q: seq<Text>, id: Text): seq<Text> { if id in q then q else q + [id] }

  class TaskManager {
    var tasks: seq<Text>

    constructor ()
      ensures tasks == []
    {
      tasks := [];
    }

    method AddTask(id: Text) returns (added: bool)
      modifies this
      ensures tasks == Enqueue(old(tasks), id)
      ensures added <==> id !in old(tasks)
    {
      for i := 0 to |tasks|
        invariant id !in tasks[..i] && tasks == old(tasks)
      {
        if tasks[i] == id {
          return false;
        }
      }
      tasks := tasks + [id];
      return true;
    }

    /** What the worker does once its wait is over: there is a task. */
    method TakeFront() returns (id: Text)
      requires tasks != []
      modifies this
      ensures [id] + tasks == old(tasks)
    {
      id := tasks[0];
      tasks := tasks[1..];
    }
  }

  datatype Op = Add(id: Text) | Take

  /** The queue together with the ids it accepted and the ids it gave to the worker, so far. */
  datatype History = History(queue: seq<Text>, accepted: seq<Text>, taken: seq<Text>)

  function Step(h: History, op: Op): History {
    match op
    case Add(id) =>
      if id in h.queue then h
      else History(Enqueue(h.queue, id), h.accepted + [id], h.taken)
    case Take =>
      if h.queue == [] then h
      else History(h.queue[1..], h.accepted, h.taken + [h.queue[0]])
  }

  function Steps(h: History, ops: seq<Op>): History
    decreases |ops|
  {
    if ops == [] then h else Steps(Step(h, ops[0]), ops[1..])
  }

  ghost predicate Ordered(h: History) { Distinct(h.queue) && h.taken + h.queue == h.accepted }

  lemma StepOrdered(h: History, op: Op)
    requires Ordered(h)
    ensures Ordered(Step(h, op))
  {
    match op {
      case Add(id) =>
        assert h.taken + (h.queue + [id]) == (h.taken + h.queue) + [id];
      case Take =>
        if h.queue != [] {
          assert h.taken + [h.queue[0]] + h.queue[1..] == h.taken + h.queue;
        }
    }
  }

  /** Pending ids stay distinct, and the worker gets the accepted ones in the order of acceptance. */
  lemma {:induction false} FirstInFirstOut(h: History, ops: seq<Op>)
    requires Ordered(h)
    ensures Ordered(Steps(h, ops))
    decreases |ops|
  {
    if ops != [] {
      StepOrdered(h, ops[0]);
      FirstInFirstOut(Step(h, ops[0]), ops[1..]);
    }
  }
}
