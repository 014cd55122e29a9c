// The runs that the handlers of the event thread and the worker can produce.
module Handlers {
  import opened Octets
  import opened Allocator
  import opened Machine
  import Tasks

  /** A step of the worker. */
  predicate OfWorker(e: Event) {
    !e.Announce? && !e.Save? && !e.Complete? && !e.SaveFailed? && !e.AddTask?
  }

  predicate HasRoom(s: Sys, u: Text) { u in s.uris && |s.uris[u].syncing| < DOWNLOAD_LIMIT }

  /** add_req_task: a task for every file with room, and for no other. */
  ghost predicate Sweeps(s: Sys, adds: seq<Event>) {
    && (forall e | e in adds :: e.AddTask? && HasRoom(s, e.uri))
    && (forall u | HasRoom(s, u) :: AddTask(u) in adds)
  }

  /** The events first, then the tasks for what they leave. */
  ghost predicate ThenSweeps(s: Sys, es: seq<Event>, n: nat) {
    n <= |es| && Run(s, es[..n]) && Sweeps(Exec(s, es[..n]), es[n..])
  }

  /** handleReplyResource, from the start or from where it has saved the bytes. */
  ghost predicate ReplyHandled(s: Sys, es: seq<Event>) {
    || (|es| >= 2 && es[0].Save? && es[1].Complete? && ThenSweeps(s, es, 2))
    || (|es| >= 1 && es[0].Complete? && ThenSweeps(s, es, 1))
  }

  /** Announcements, all by the peer that made the first. */
  ghost predicate OnePeerAnnounces(es: seq<Event>) {
    (forall e | e in es :: e.Announce?) && (forall e | e in es && es[0].Announce? :: e.peer == es[0].peer)
  }

  /** handleReplyTableIndex: the wanted rows of one peer, if any. */
  ghost predicate TableHandled(s: Sys, es: seq<Event>) {
    exists n: nat :: ThenSweeps(s, es, n) && OnePeerAnnounces(es[..n])
  }

  /** One handler call of the event thread, or one step of the worker. */
  ghost predicate Handled(s: Sys, es: seq<Event>) {
    (|es| == 1 && OfWorker(es[0])) || ReplyHandled(s, es) || TableHandled(s, es)
  }

  /** Handler calls and steps of the worker, one after the other. */
  ghost predicate AllHandled(s: Sys, calls: seq<seq<Event>>)
    decreases |calls|
  {
    calls != [] ==> Run(s, calls[0]) && Handled(s, calls[0]) && AllHandled(Exec(s, calls[0]), calls[1..])
  }

  /** A run made of such calls. */
  ghost predicate Produced(s: Sys, es: seq<Event>) {
    exists calls :: AllHandled(s, calls) && Concat(calls) == es
  }

  /** The state after them. */
  ghost function After(s: Sys, calls: seq<seq<Event>>): Sys
    requires AllHandled(s, calls)
    decreases |calls|
  {
    if calls == [] then s else After(Exec(s, calls[0]), calls[1..])
  }

  lemma {:induction false} AllHandledRuns(s: Sys, calls: seq<seq<Event>>)
    requires AllHandled(s, calls)
    ensures Run(s, Concat(calls)) && Exec(s, Concat(calls)) == After(s, calls)
    decreases |calls|
  {
    if calls != [] {
      AllHandledRuns(Exec(s, calls[0]), calls[1..]);
      RunThen(s, calls[0], Concat(calls[1..]));
    }
  }

  lemma {:induction false} AllHandledThen(s: Sys, calls: seq<seq<Event>>, more: seq<seq<Event>>)
    requires AllHandled(s, calls) && AllHandled(After(s, calls), more)
    ensures AllHandled(s, calls + more)
    decreases |calls|
  {
    if calls == [] {
      assert calls + more == more;
    } else {
      assert (calls + more)[1..] == calls[1..] + more;
      AllHandledThen(Exec(s, calls[0]), calls[1..], more);
    }
  }

  lemma ProducedRuns(s: Sys, es: seq<Event>)
    requires Produced(s, es)
    ensures Run(s, es)
  {
    var calls :| AllHandled(s, calls) && Concat(calls) == es;
    AllHandledRuns(s, calls);
  }

  lemma ProducedThen(s: Sys, es: seq<Event>, fs: seq<Event>)
    requires Run(s, es) && Produced(s, es) && Produced(Exec(s, es), fs)
    ensures Produced(s, es + fs)
    ensures Run(Exec(s, es), fs) && Run(s, es + fs) && Exec(s, es + fs) == Exec(Exec(s, es), fs)
  {
    ProducedRuns(Exec(s, es), fs);
    RunThen(s, es, fs);
    CallsThen(s, es, fs);
  }

  lemma CallsThen(s: Sys, es: seq<Event>, fs: seq<Event>)
    requires Run(s, es) && Produced(s, es) && Produced(Exec(s, es), fs)
    ensures Produced(s, es + fs)
  {
    var calls :| AllHandled(s, calls) && Concat(calls) == es;
    var more :| AllHandled(Exec(s, es), more) && Concat(more) == fs;
    AllHandledRuns(s, calls);
    AllHandledThen(s, calls, more);
    ConcatAppend(calls, more);
  }

  lemma HandledIsProduced(s: Sys, es: seq<Event>)
    requires Run(s, es) && (es != [] ==> Handled(s, es))
    ensures Produced(s, es)
  {
    if es == [] {
      assert AllHandled(s, []) && Concat<Event>([]) == es;
    } else {
      var calls := [es];
      assert calls[1..] == [] && AllHandled(s, calls);
      assert Concat(calls) == es + Concat<Event>([]) == es;
    }
  }

  /** The worker alone. */
  lemma {:induction false} WorkerProduces(s: Sys, es: seq<Event>)
    requires Run(s, es) && forall e | e in es :: OfWorker(e)
    ensures Produced(s, es)
    decreases |es|
  {
    if es == [] {
      HandledIsProduced(s, es);
    } else {
      assert es[0] in es;
      RunOne(s, [], es[0]);
      assert [] + [es[0]] == [es[0]] && [es[0]] + es[1..] == es;
      HandledIsProduced(s, [es[0]]);
      WorkerProduces(Next(s, es[0]), es[1..]);
      ProducedThen(s, [es[0]], es[1..]);
    }
  }

  // Sweeps.

  /** The queue after a sweep. */
  function EnqueueAll(q: seq<Text>, adds: seq<Event>): seq<Text>
    requires forall e | e in adds :: e.AddTask?
    decreases |adds|
  {
    if adds == [] then q
    else
      assert adds[0] in adds;
      EnqueueAll(Tasks.Enqueue(q, adds[0].uri), adds[1..])
  }

  lemma {:induction false} AddsRun(s: Sys, adds: seq<Event>)
    requires s.loop.Waiting? && forall e | e in adds :: e.AddTask?
    ensures Run(s, adds) && Exec(s, adds) == s.(tasks := EnqueueAll(s.tasks, adds))
    decreases |adds|
  {
    if adds != [] {
      assert adds[0] in adds;
      AddsRun(Next(s, adds[0]), adds[1..]);
    }
  }

  lemma {:induction false} Enqueued(q: seq<Text>, adds: seq<Event>, u: Text)
    requires forall e | e in adds :: e.AddTask?
    ensures u in EnqueueAll(q, adds) <==> u in q || AddTask(u) in adds
    decreases |adds|
  {
    if adds != [] {
      assert adds[0] in adds && adds == [adds[0]] + adds[1..];
      Enqueued(Tasks.Enqueue(q, adds[0].uri), adds[1..], u);
    }
  }

  /** A sweep of any state; the tasks it leaves include every file with room. */
  lemma SweepRuns(s: Sys) returns (adds: seq<Event>)
    requires s.loop.Waiting?
    ensures Sweeps(s, adds) && Run(s, adds) && forall e | e in adds :: e.AddTask?
    ensures Exec(s, adds) == s.(tasks := EnqueueAll(s.tasks, adds))
    ensures forall u | HasRoom(s, u) :: u in EnqueueAll(s.tasks, adds)
  {
    adds := [];
    var rest := s.uris.Keys;
    while rest != {}
      invariant rest <= s.uris.Keys
      invariant forall e | e in adds :: e.AddTask? && HasRoom(s, e.uri)
      invariant forall u | HasRoom(s, u) && u !in rest :: AddTask(u) in adds
      decreases rest
    {
      var u :| u in rest;
      rest := rest - {u};
      if HasRoom(s, u) {
        adds := adds + [AddTask(u)];
      }
    }
    AddsRun(s, adds);
    forall u | HasRoom(s, u) ensures u in EnqueueAll(s.tasks, adds) {
      Enqueued(s.tasks, adds, u);
    }
  }

  /** The sweep when there is only one file. */
  function AddsFor(s: Sys, u: Text): seq<Event> { if HasRoom(s, u) then [AddTask(u)] else [] }

  lemma OnlyFileSwept(s: Sys, u: Text)
    requires s.loop.Waiting? && forall v | v in s.uris :: v == u
    ensures Sweeps(s, AddsFor(s, u)) && Run(s, AddsFor(s, u))
    ensures Exec(s, AddsFor(s, u)) == if HasRoom(s, u) then s.(tasks := Tasks.Enqueue(s.tasks, u)) else s
  {
    AddsRun(s, AddsFor(s, u));
  }

  /** What the events before a sweep do, and then the sweep. */
  lemma SweptAfter(s: Sys, es: seq<Event>, adds: seq<Event>)
    requires Run(s, es) && Sweeps(Exec(s, es), adds) && Run(Exec(s, es), adds)
    ensures ThenSweeps(s, es + adds, |es|)
    ensures Run(s, es + adds) && Exec(s, es + adds) == Exec(Exec(s, es), adds)
  {
    var n, all := |es|, es + adds;
    assert all[..n] == es && all[n..] == adds;
    RunThen(s, es, adds);
  }

  /** A reply. */
  lemma ReplyProduces(s: Sys, save: Event, complete: Event, adds: seq<Event>)
    requires save.Save? && complete.Complete? && Run(s, [save, complete])
    requires Sweeps(Exec(s, [save, complete]), adds) && Run(Exec(s, [save, complete]), adds)
    ensures var es := [save, complete] + adds;
            Produced(s, es) && Run(s, es) && Exec(s, es) == Exec(Exec(s, [save, complete]), adds)
  {
    var es := [save, complete] + adds;
    SweptAfter(s, [save, complete], adds);
    assert es[0] == save && es[1] == complete;
    HandledIsProduced(s, es);
  }

  /** The rest of a reply whose bytes are saved. */
  lemma CompletionProduces(s: Sys, complete: Event, adds: seq<Event>)
    requires complete.Complete? && Run(s, [complete])
    requires Sweeps(Exec(s, [complete]), adds) && Run(Exec(s, [complete]), adds)
    ensures var es := [complete] + adds;
            Produced(s, es) && Run(s, es) && Exec(s, es) == Exec(Exec(s, [complete]), adds)
  {
    var es := [complete] + adds;
    SweptAfter(s, [complete], adds);
    assert es[0] == complete;
    HandledIsProduced(s, es);
  }

  /** A table with one wanted row. */
  lemma AnnouncementProduces(s: Sys, announce: Event, adds: seq<Event>)
    requires announce.Announce? && Enabled(s, announce)
    requires Sweeps(Next(s, announce), adds) && Run(Next(s, announce), adds)
    ensures var es := [announce] + adds;
            Produced(s, es) && Run(s, es) && Exec(s, es) == Exec(Next(s, announce), adds)
  {
    var es := [announce] + adds;
    RunOne(s, [], announce);
    assert [] + [announce] == [announce];
    SweptAfter(s, [announce], adds);
    assert es[..1] == [announce] && ThenSweeps(s, es, 1);
    HandledIsProduced(s, es);
  }

  /** A table with any number of them. */
  lemma TableProduces(s: Sys, es: seq<Event>, adds: seq<Event>, peer: NetAddr)
    requires Run(s, es) && Sweeps(Exec(s, es), adds) && Run(Exec(s, es), adds)
    requires forall e | e in es :: e.Announce? && e.peer == peer
    ensures TableHandled(s, es + adds)
    ensures Run(s, es + adds) && Exec(s, es + adds) == Exec(Exec(s, es), adds)
  {
    SweptAfter(s, es, adds);
    assert (es + adds)[..|es|] == es;
    assert es != [] ==> es[0] in es;
  }

  /** A table without any. */
  lemma SweepProduces(s: Sys, adds: seq<Event>)
    requires Sweeps(s, adds) && Run(s, adds)
    ensures Produced(s, adds)
  {
    SweptAfter(s, [], adds);
    assert [] + adds == adds && adds[..0] == [] && ThenSweeps(s, adds, 0);
    HandledIsProduced(s, adds);
  }
}
