// How much work a download takes.
module Accounting {
  import opened Octets
  import opened Blocks
  import opened Allocator
  import opened Machine
  import opened Downloads

  /** Each open block needs an assignment and a completion, each block in flight a completion. */
  function Work(s: Sys, u: Text): nat {
    if u in s.uris then 2 * |s.uris[u].block| + |s.uris[u].syncing| else 0
  }

  /** What has happened to one file: assignments that gave out a block, matching completions, blocks returned. */
  datatype Tally = Tally(handedOut: nat, completed: nat, returned: nat) {
    function Plus(t: Tally): Tally {
      Tally(handedOut + t.handedOut, completed + t.completed, returned + t.returned)
    }
  }

  function TallyOf(s: Sys, e: Event, u: Text): Tally
    requires Enabled(s, e)
  {
    match e
    case Allot(junk) =>
      var rs := At(s.uris, u, junk);
      Tally(if s.worker.uri == u && rs.block != [] && s.worker.peer in rs.owner then 1 else 0, 0, 0)
    case Complete(junk) =>
      Tally(0, if s.loop.uri == u && Matches(s, junk) then 1 else 0, 0)
    case SaveFailed(junk) =>
      Tally(0, 0, if s.loop.uri == u && Matches(s, junk) then 1 else 0)
    case SendFailed(junk) =>
      Tally(0, 0, if s.worker.uri == u then |BlocksWith(At(s.uris, u, junk).syncing, s.worker.peer)| else 0)
    case _ => Tally(0, 0, 0)
  }

  ghost function TallyAll(s: Sys, es: seq<Event>, u: Text): Tally
    requires Run(s, es)
    decreases |es|
  {
    if es == [] then Tally(0, 0, 0) else TallyOf(s, es[0], u).Plus(TallyAll(Next(s, es[0]), es[1..], u))
  }

  /** No announcement starts a new version of the file on the way. */
  ghost predicate OneVersion(s: Sys, es: seq<Event>, u: Text)
    requires Run(s, es)
    decreases |es|
  {
    es != [] ==> !StartsVersion(s, es[0], u) && OneVersion(Next(s, es[0]), es[1..], u)
  }

  lemma GaveBackAllWork(s: Sys, e: Event, u: Text)
    requires Enabled(s, e) && e.SendFailed?
    ensures Work(Next(s, e), u) == Work(s, u) + TallyOf(s, e, u).returned
  {
    NotWithLength(At(s.uris, u, e.junk).syncing, s.worker.peer);
  }

  lemma FinishWork(s: Sys, e: Event, u: Text)
    requires Enabled(s, e) && e.Complete?
    ensures Work(Next(s, e), u) + TallyOf(s, e, u).completed == Work(s, u)
    ensures |DoneOf(Next(s, e).done, u)| == |DoneOf(s.done, u)| + TallyOf(s, e, u).completed
  {
  }

  lemma WorkStep(s: Sys, e: Event, u: Text)
    requires Enabled(s, e) && !StartsVersion(s, e, u)
    ensures var t := TallyOf(s, e, u);
            && Work(Next(s, e), u) + t.handedOut + t.completed == Work(s, u) + t.returned
            && |DoneOf(Next(s, e).done, u)| == |DoneOf(s.done, u)| + t.completed
  {
    match e {
      case Complete(_) => FinishWork(s, e, u);
      case SendFailed(_) => GaveBackAllWork(s, e, u);
      case _ =>
    }
  }

  /**
   * While one version is tracked, the work left drops by one with every assignment and every completion and
   * grows by one with every block returned.
   */
  lemma {:induction false} WorkIsAccountedFor(s: Sys, es: seq<Event>, u: Text)
    requires Run(s, es) && OneVersion(s, es, u)
    ensures var t, end := TallyAll(s, es, u), Exec(s, es);
            && Work(end, u) + t.handedOut + t.completed == Work(s, u) + t.returned
            && |DoneOf(end.done, u)| == |DoneOf(s.done, u)| + t.completed
    decreases |es|
  {
    if es != [] {
      WorkStep(s, es[0], u);
      WorkIsAccountedFor(Next(s, es[0]), es[1..], u);
    }
  }

  /** The file has just been registered. */
  ghost predicate JustStarted(s: Sys, u: Text) {
    && Tracked(s, u) && s.uris[u].block == Cut(s.uris[u].size) && s.uris[u].syncing == [] && DoneOf(s.done, u) == []
  }

  lemma {:induction false} SizeStays(s: Sys, es: seq<Event>, u: Text)
    requires Inv(s) && Run(s, es) && OneVersion(s, es, u) && Tracked(Exec(s, es), u)
    ensures Inv(Exec(s, es)) && Tracked(s, u) && Exec(s, es).uris[u].size == s.uris[u].size
    decreases |es|
  {
    if es != [] {
      StepOk(s, es[0]);
      SizeStays(Next(s, es[0]), es[1..], u);
      TrackedStep(s, es[0], u);
    }
  }

  /**
   * A download of n blocks that runs to its end takes exactly n completions, and n assignments plus one for
   * every block that came back.
   */
  lemma DownloadTakesExactly(s: Sys, es: seq<Event>, e: Event, u: Text)
    requires Inv(s) && JustStarted(s, u) && Run(s, es) && OneVersion(s, es, u)
    requires Tracked(Exec(s, es), u) && Enabled(Exec(s, es), e) && !Tracked(Next(Exec(s, es), e), u)
    ensures var t, n := TallyAll(s, es, u).Plus(TallyOf(Exec(s, es), e, u)), |Cut(s.uris[u].size)|;
            t.completed == n && t.handedOut == n + t.returned
  {
    var last := Exec(s, es);
    SizeStays(s, es, u);
    WorkIsAccountedFor(s, es, u);
    DroppedIsDone(last, e, u);
    WorkStep(last, e, u);
    var done := DoneOf(Next(last, e).done, u);
    assert |done| == |multiset(done)| == |multiset(Cut(last.uris[u].size))| == |Cut(last.uris[u].size)|;
  }

  // Requests.

  /**
   * What a request asks for has just gone from the open blocks, where it stood last, to the ranges in flight with
   * the peer it goes to, who owns the file; nothing else has changed. Without a request nothing has been put in
   * flight but the empty block of an empty file.
   */
  lemma RequestedIsInFlight(s: Sys, junk: u64)
    requires Inv(s) && s.worker.Chosen?
    ensures var u, p, t := s.worker.uri, s.worker.peer, Next(s, Allot(junk));
            if t.worker.Sending? then
              && t.worker.uri == u && t.worker.peer == p && Tracked(s, u) && p in s.uris[u].owner
              && s.uris[u].block == t.uris[u].block + [t.worker.block]
              && t.uris[u].syncing == s.uris[u].syncing + [SyncingRange(p, t.worker.block)]
              && t.uris == s.uris[u := s.uris[u].(block := t.uris[u].block, syncing := t.uris[u].syncing)]
            else
              t.worker.Idle? && (t.uris == Touch(s.uris, u, junk) || (Tracked(s, u) && s.uris[u].size == 0))
  {
    var u, p := s.worker.uri, s.worker.peer;
    var rs := At(s.uris, u, junk);
    AtOk(s, u, junk);
    AssignMoves(s.uris, p, u, junk);
    if rs.block != [] && p in rs.owner {
      AssignmentIsSentIff(s, junk);
    }
  }

  lemma AssignMoves(m: Files, p: NetAddr, u: Text, junk: u64)
    ensures var (m', b) := Assign(m, p, u, junk);
            if u in m && m[u].block != [] && p in m[u].owner then
              && u in m' && m[u].block == m'[u].block + [b]
              && m'[u].syncing == m[u].syncing + [SyncingRange(p, b)]
              && m' == m[u := m[u].(block := m'[u].block, syncing := m'[u].syncing)]
            else m' == Touch(m, u, junk) && b == Block(0, 0)
  {
    var rs := At(m, u, junk);
    if rs.block != [] && p in rs.owner {
      var rest, b := rs.block[..|rs.block| - 1], rs.block[|rs.block| - 1];
      assert rs.block == rest + [b];
      AssignedLast(rs, p, rest, b);
    } else {
      AssignedNothing(rs, p);
    }
  }

  /** Whichever owner of its copy the worker draws, that one is asked, when it still owns the file. */
  lemma DrawnOwnerIsAsked(s: Sys, who: nat, junk: u64)
    requires Inv(s) && s.worker.Cleared? && Enabled(s, Choose(who, junk)) && Tracked(s, s.worker.uri)
    requires var rs := s.uris[s.worker.uri]; rs.block != [] && rs.size > 0 && s.worker.owners[who] in rs.owner
    ensures var u, p, es := s.worker.uri, s.worker.owners[who], [Choose(who, junk), Allot(junk)];
            var rs := s.uris[u];
            Run(s, es) && Exec(s, es).worker == Sending(u, p, rs.block[|rs.block| - 1])
  {
    var t := s.(worker := Chosen(s.worker.uri, s.worker.owners[who]));
    assert Next(s, Choose(who, junk)) == t by {
      assert Touch(s.uris, s.worker.uri, junk) == s.uris;
    }
    StepOk(s, Choose(who, junk));
    ChosenIsAsked(t, junk);
    RunTwo(s, Choose(who, junk), Allot(junk));
  }

  lemma ChosenIsAsked(s: Sys, junk: u64)
    requires Inv(s) && s.worker.Chosen? && Tracked(s, s.worker.uri)
    requires var rs := s.uris[s.worker.uri]; rs.block != [] && rs.size > 0 && s.worker.peer in rs.owner
    ensures var rs := s.uris[s.worker.uri];
            Next(s, Allot(junk)).worker == Sending(s.worker.uri, s.worker.peer, rs.block[|rs.block| - 1])
  {
    var rs := s.uris[s.worker.uri];
    AssignmentIsSentIff(s, junk);
    AssignedLast(rs, s.worker.peer, rs.block[..|rs.block| - 1], rs.block[|rs.block| - 1]);
  }

  // Empty files.

  lemma OpenBlockFromCut(s: Sys, u: Text, b: Block)
    requires Inv(s) && Tracked(s, u) && b in s.uris[u].block
    ensures b in Cut(s.uris[u].size)
  {
    assert b in Held(s.uris[u]) + multiset(DoneOf(s.done, u));
    assert b in multiset(Cut(s.uris[u].size));
  }

  /**
   * An assignment is followed by a request if and only if the file is not empty: the block of an empty file
   * looks like no block at all.
   */
  lemma AssignmentIsSentIff(s: Sys, junk: u64)
    requires Inv(s) && s.worker.Chosen? && Tracked(s, s.worker.uri)
    requires s.uris[s.worker.uri].block != [] && s.worker.peer in s.uris[s.worker.uri].owner
    ensures Next(s, Allot(junk)).worker.Sending? <==> s.uris[s.worker.uri].size > 0
  {
    var rs := s.uris[s.worker.uri];
    var b := rs.block[|rs.block| - 1];
    OpenBlockFromCut(s, s.worker.uri, b);
    CutBlockShape(rs.size, b);
    LastIsAssigned(s.uris, s.worker.peer, s.worker.uri, junk);
  }

  lemma LastIsAssigned(m: Files, p: NetAddr, u: Text, junk: u64)
    requires u in m && m[u].block != [] && p in m[u].owner
    ensures Assign(m, p, u, junk).1 == m[u].block[|m[u].block| - 1]
  {
  }

  lemma CutBlockShape(size: u64, b: Block)
    requires b in Cut(size)
    ensures b.end != 0 <==> size > 0
    ensures size > 0 ==> Proper(b)
  {
    var i :| 0 <= i < |Cut(size)| && Cut(size)[i] == b;
    BlockShape(size, i);
  }

  /** Every request on its way asks for at least one byte and at most 1 MiB. */
  lemma {:induction false} RequestsAreProper(s: Sys, es: seq<Event>)
    requires Inv(s) && Run(s, es)
    requires s.worker.Sending? ==> Proper(s.worker.block)
    ensures Exec(s, es).worker.Sending? ==> Proper(Exec(s, es).worker.block)
    decreases |es|
  {
    if es != [] {
      StepOk(s, es[0]);
      if es[0].Allot? && Next(s, es[0]).worker.Sending? {
        SentIsProper(s, es[0]);
      }
      RequestsAreProper(Next(s, es[0]), es[1..]);
    }
  }

  predicate Proper(b: Block) { b.start < b.end && b.end - b.start <= BLOCK_SIZE }

  lemma SentIsProper(s: Sys, e: Event)
    requires Inv(s) && e.Allot? && Enabled(s, e) && Next(s, e).worker.Sending?
    ensures Proper(Next(s, e).worker.block)
  {
    var u := s.worker.uri;
    var rs := At(s.uris, u, e.junk);
    AtOk(s, u, e.junk);
    var b := rs.block[|rs.block| - 1];
    assert Tracked(s, u);
    OpenBlockFromCut(s, u, b);
    CutBlockShape(rs.size, b);
  }

  // Where completion and the whole file part ways.

  /** When a file is dropped, its finished blocks cover it if and only if its size passes the test. */
  lemma DroppedBlocksCoverIff(s: Sys, e: Event, u: Text)
    requires Inv(s) && Enabled(s, e) && Tracked(s, u) && !Tracked(Next(s, e), u)
    ensures (forall o: nat | o < s.uris[u].size :: InFinished(Next(s, e), u, o)) <==> WholeFileCut(s.uris[u].size)
  {
    var size, done := s.uris[u].size, DoneOf(Next(s, e).done, u);
    DroppedIsDone(s, e, u);
    forall o: nat ensures InFinished(Next(s, e), u, o) <==> InSomeBlock(size, o) {
      if InFinished(Next(s, e), u, o) {
        var b :| b in done && Contains(b, o);
        assert b in multiset(Cut(size));
        assert b in Cut(size);
      }
      if InSomeBlock(size, o) {
        var i :| 0 <= i < |Cut(size)| && Contains(Cut(size)[i], o);
        assert Cut(size)[i] in multiset(done);
      }
    }
    BlocksCoverFileIff(size);
  }

  ghost predicate InFinished(s: Sys, u: Text, o: nat) { exists b :: b in DoneOf(s.done, u) && Contains(b, o) }
}
