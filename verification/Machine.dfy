// The two threads of the downloader, one step per lock: the event loop announces, saves and completes;
// the single worker takes a task, looks, chooses, assigns and sends.
module Machine {
  import opened Octets
  import opened Blocks
  import opened Allocator
  import opened Announcements
  import opened FileIo
  import Tasks

  const DOWNLOAD_LIMIT := 5

  datatype Said = Said(uri: Text, ann: Ann)

  /** Where the worker stands in ReqRsTask::run. */
  datatype Worker =
    | Idle
    | Started(uri: Text)
    | Copied(uri: Text, owners: seq<NetAddr>)
    | Counted(uri: Text, owners: seq<NetAddr>, n: nat)
    | Open(uri: Text, owners: seq<NetAddr>, n: nat)
    | Cleared(uri: Text, owners: seq<NetAddr>, n: nat)
    | Chosen(uri: Text, peer: NetAddr)
    | Sending(uri: Text, peer: NetAddr, block: Block)

  /** Where the event loop stands in handleReplyResource: the bytes are saved before the range is looked up. */
  datatype EventLoop = Waiting | Saved(peer: NetAddr, uri: Text, block: Block)

  /** done and said are history: the finished blocks of the tracked version, and all announcements. */
  datatype Sys = Sys(uris: Files, disk: map<Text, seq<byte>>, tasks: seq<Text>, worker: Worker, loop: EventLoop,
                     done: map<Text, seq<Block>>, said: seq<Said>)

  datatype Event =
    | Announce(peer: NetAddr, uri: Text, hash: Text, size: u64)
    | Save(peer: NetAddr, uri: Text, start: u64, data: seq<byte>, io: Io)
    | Complete(junk: u64)
    | SaveFailed(junk: u64)
    | AddTask(uri: Text)
    | TakeTask
    | CopyOwners(junk: u64)
    | CountOwners(junk: u64)
    | CountBlocks(junk: u64)
    | CountSyncing(junk: u64)
    | Choose(who: nat, junk: u64)
    | Allot(junk: u64)
    | Sent
    | SendFailed(junk: u64)

  function FileOf(disk: map<Text, seq<byte>>, u: Text): seq<byte> { if u in disk then disk[u] else [] }

  function DoneOf(done: map<Text, seq<Block>>, u: Text): seq<Block> { if u in done then done[u] else [] }

  predicate Enabled(s: Sys, e: Event) {
    match e
    case Announce(_, uri, _, _) => s.loop.Waiting? && uri != []
    case Save(_, uri, start, data, _) => s.loop.Waiting? && uri != [] && start + |data| < TWO_63
    case Complete(_) => s.loop.Saved?
    case SaveFailed(_) => s.loop.Saved?
    case AddTask(_) => s.loop.Waiting?
    case TakeTask => s.worker.Idle? && s.tasks != []
    case CopyOwners(_) => s.worker.Started?
    case CountOwners(_) => s.worker.Copied?
    case CountBlocks(_) => s.worker.Counted?
    case CountSyncing(_) => s.worker.Open?
    case Choose(who, _) => s.worker.Cleared? && who < s.worker.n && who < |s.worker.owners|
    case Allot(_) => s.worker.Chosen?
    case Sent => s.worker.Sending?
    case SendFailed(_) => s.worker.Sending?
  }

  /** An announcement starts a version: the file is not tracked, or only in a smaller version. */
  predicate Starts(uris: Files, u: Text, size: u64) { u !in uris || uris[u].size < size }

  predicate StartsVersion(s: Sys, e: Event, u: Text) { e.Announce? && e.uri == u && Starts(s.uris, u, e.size) }

  predicate Matches(s: Sys, junk: u64)
    requires s.loop.Saved?
  {
    SyncingRange(s.loop.peer, s.loop.block) in At(s.uris, s.loop.uri, junk).syncing
  }

  function Next(s: Sys, e: Event): Sys
    requires Enabled(s, e)
  {
    match e
    case Announce(peer, u, hash, size) =>
      s.(uris := Register(s.uris, peer, u, hash, size).0,
         done := if Starts(s.uris, u, size) then s.done[u := []] else s.done,
         said := s.said + [Said(u, Ann(peer, hash, size))])
    case Save(peer, u, start, data, io) =>
      s.(disk := s.disk[u := Stored(FileOf(s.disk, u), start, data, io)],
         loop := Saved(peer, u, Block(start, start + |data|)))
    case Complete(junk) =>
      var u, b := s.loop.uri, s.loop.block;
      s.(uris := Finish(s.uris, s.loop.peer, u, b, junk),
         done := DoneAfter(s.uris, s.done, s.loop.peer, u, b, junk),
         loop := Waiting)
    case SaveFailed(junk) =>
      s.(uris := GiveBack(s.uris, s.loop.peer, s.loop.block, s.loop.uri, junk), loop := Waiting)
    case AddTask(u) => s.(tasks := Tasks.Enqueue(s.tasks, u))
    case TakeTask => s.(worker := Started(s.tasks[0]), tasks := s.tasks[1..])
    case CopyOwners(junk) =>
      var u := s.worker.uri;
      s.(uris := Touch(s.uris, u, junk), worker := Copied(u, At(s.uris, u, junk).owner))
    case CountOwners(junk) =>
      var u, n := s.worker.uri, |At(s.uris, s.worker.uri, junk).owner|;
      s.(uris := Touch(s.uris, u, junk), worker := if n == 0 then Idle else Counted(u, s.worker.owners, n))
    case CountBlocks(junk) =>
      var u, n := s.worker.uri, |At(s.uris, s.worker.uri, junk).block|;
      s.(uris := Touch(s.uris, u, junk), worker := if n == 0 then Idle else Open(u, s.worker.owners, s.worker.n))
    case CountSyncing(junk) =>
      var u, n := s.worker.uri, |At(s.uris, s.worker.uri, junk).syncing|;
      s.(uris := Touch(s.uris, u, junk),
         worker := if n >= DOWNLOAD_LIMIT then Idle else Cleared(u, s.worker.owners, s.worker.n))
    case Choose(who, junk) =>
      s.(uris := Touch(s.uris, s.worker.uri, junk), worker := Chosen(s.worker.uri, s.worker.owners[who]))
    case Allot(junk) =>
      var (uris, b) := Assign(s.uris, s.worker.peer, s.worker.uri, junk);
      s.(uris := uris, worker := if b.end != 0 then Sending(s.worker.uri, s.worker.peer, b) else Idle)
    case Sent => s.(worker := Idle)
    case SendFailed(junk) =>
      s.(uris := GiveBackAll(s.uris, s.worker.peer, s.worker.uri, junk), worker := Idle)
  }

  /** Nothing tracked and nothing to do; whatever files there are. */
  function Init(disk: map<Text, seq<byte>>): Sys { Sys(map[], disk, [], Idle, Waiting, map[], []) }

  ghost predicate Run(s: Sys, es: seq<Event>)
    decreases |es|
  {
    es != [] ==> Enabled(s, es[0]) && Run(Next(s, es[0]), es[1..])
  }

  ghost function Exec(s: Sys, es: seq<Event>): Sys
    requires Run(s, es)
    decreases |es|
  {
    if es == [] then s else Exec(Next(s, es[0]), es[1..])
  }

  // Putting runs together.

  lemma {:induction false} RunThen(s: Sys, es: seq<Event>, fs: seq<Event>)
    requires Run(s, es) && Run(Exec(s, es), fs)
    ensures Run(s, es + fs) && Exec(s, es + fs) == Exec(Exec(s, es), fs)
    decreases |es|
  {
    if es == [] {
      assert es + fs == fs;
    } else {
      assert (es + fs)[1..] == es[1..] + fs;
      RunThen(Next(s, es[0]), es[1..], fs);
    }
  }

  lemma RunOne(s: Sys, es: seq<Event>, e: Event)
    requires Run(s, es) && Enabled(Exec(s, es), e)
    ensures Run(s, es + [e]) && Exec(s, es + [e]) == Next(Exec(s, es), e)
  {
    var t, fs := Exec(s, es), [e];
    assert fs[0] == e && fs[1..] == [];
    assert Run(Next(t, e), fs[1..]) && Exec(Next(t, e), fs[1..]) == Next(t, e);
    assert Run(t, fs) && Exec(t, fs) == Exec(Next(t, fs[0]), fs[1..]);
    RunThen(s, es, [e]);
  }

  lemma {:induction false} ExecLast(s: Sys, es: seq<Event>)
    requires es != [] && Run(s, es)
    ensures Run(s, es[..|es| - 1]) && Enabled(Exec(s, es[..|es| - 1]), es[|es| - 1])
    ensures Exec(s, es) == Next(Exec(s, es[..|es| - 1]), es[|es| - 1])
    decreases |es|
  {
    var init := es[..|es| - 1];
    if init != [] {
      assert es[1..][..|es| - 2] == init[1..];
      ExecLast(Next(s, es[0]), es[1..]);
    }
  }

  lemma RunTwo(s: Sys, e: Event, f: Event)
    requires Enabled(s, e) && Enabled(Next(s, e), f)
    ensures Run(s, [e, f]) && Exec(s, [e, f]) == Next(Next(s, e), f)
  {
    RunOne(s, [], e);
    RunOne(s, [e], f);
    assert [] + [e] == [e] && [e] + [f] == [e, f];
  }

  // The invariant of one entry.

  /**
   * A phantom has nothing to give out. A real entry conserves its blocks, has some of them left and knows its
   * owners.
   */
  ghost predicate EntryOk(u: Text, rs: SyncRs, done: seq<Block>, said: seq<Said>) {
    if rs.uri == [] then rs.block == [] && rs.syncing == [] && !rs.success
    else
      && rs.uri == u && !rs.success
      && (rs.block != [] || rs.syncing != [])
      && Held(rs) + multiset(done) == multiset(Cut(rs.size))
      && |rs.syncing| <= DOWNLOAD_LIMIT
      && Distinct(rs.owner)
      && (forall p | p in rs.owner :: Said(u, Ann(p, rs.hash, rs.size)) in said)
      && (forall r | r in rs.syncing :: r.peer in rs.owner)
  }

  lemma FreshOk(u: Text, peer: NetAddr, hash: Text, size: u64, said: seq<Said>)
    requires u != [] && Said(u, Ann(peer, hash, size)) in said
    ensures EntryOk(u, Fresh(u, size, hash, peer), [], said)
  {
    CutNotEmpty(size);
  }

  lemma SaidGrows(u: Text, rs: SyncRs, done: seq<Block>, said: seq<Said>, x: Said)
    requires EntryOk(u, rs, done, said)
    ensures EntryOk(u, rs, done, said + [x])
  {
    assert forall y | y in said :: y in said + [x];
  }

  lemma OwnerAdded(u: Text, rs: SyncRs, done: seq<Block>, said: seq<Said>, peer: NetAddr)
    requires EntryOk(u, rs, done, said) && peer !in rs.owner && Said(u, Ann(peer, rs.hash, rs.size)) in said
    ensures EntryOk(u, rs.(owner := rs.owner + [peer]), done, said)
  {
    var owner := rs.owner + [peer];
    assert forall p :: p in owner <==> p in rs.owner || p == peer;
    if rs.uri != [] {
      assert Distinct(owner);
    }
  }

  lemma AnnouncedOk(u: Text, rs: SyncRs, done: seq<Block>, said: seq<Said>, peer: NetAddr, hash: Text, size: u64)
    requires EntryOk(u, rs, done, said) && rs.size >= size
    ensures EntryOk(u, Announced(rs, peer, u, hash, size).0, done, said + [Said(u, Ann(peer, hash, size))])
  {
    var x := Said(u, Ann(peer, hash, size));
    SaidGrows(u, rs, done, said, x);
    if rs.size == size && rs.hash == hash && peer !in rs.owner {
      assert x in said + [x];
      OwnerAdded(u, rs, done, said + [x], peer);
    }
  }

  lemma AssignedOk(u: Text, rs: SyncRs, done: seq<Block>, said: seq<Said>, peer: NetAddr)
    requires EntryOk(u, rs, done, said) && |rs.syncing| < DOWNLOAD_LIMIT
    ensures EntryOk(u, Assigned(rs, peer).0, done, said)
  {
    AssignedConserves(rs, peer);
  }

  lemma RemoveMembers(s: seq<SyncingRange>, i: nat)
    requires i < |s|
    ensures forall r | r in RemoveAt(s, i) :: r in s
  {
  }

  lemma GaveBackOk(u: Text, rs: SyncRs, done: seq<Block>, said: seq<Said>, peer: NetAddr, b: Block)
    requires EntryOk(u, rs, done, said)
    ensures EntryOk(u, GaveBack(rs, peer, b), done, said)
  {
    GaveBackConserves(rs, peer, b);
    if SyncingRange(peer, b) in rs.syncing {
      RemoveMembers(rs.syncing, LastOf(rs.syncing, SyncingRange(peer, b)));
    }
  }

  lemma GaveBackAllOk(u: Text, rs: SyncRs, done: seq<Block>, said: seq<Said>, peer: NetAddr)
    requires EntryOk(u, rs, done, said)
    ensures EntryOk(u, GaveBackAll(rs, peer), done, said)
    ensures peer !in GaveBackAll(rs, peer).owner
    ensures forall r | r in GaveBackAll(rs, peer).syncing :: r.peer != peer
  {
    GaveBackAllConserves(rs, peer);
    NotWithLength(rs.syncing, peer);
    assert |GaveBackAll(rs, peer).block| + |GaveBackAll(rs, peer).syncing| == |rs.block| + |rs.syncing|;
    forall p ensures p in Without(rs.owner, peer) <==> p in rs.owner && p != peer {
      WithoutMembers(rs.owner, peer, p);
    }
    forall r ensures r in NotWith(rs.syncing, peer) <==> r in rs.syncing && r.peer != peer {
      NotWithMembers(rs.syncing, peer, r);
    }
    if rs.uri != [] {
      WithoutDistinct(rs.owner, peer);
    }
  }

  lemma FinishedOk(u: Text, rs: SyncRs, done: seq<Block>, said: seq<Said>, peer: NetAddr, b: Block)
    requires EntryOk(u, rs, done, said)
    ensures var r := Finished(rs, peer, b);
            var done' := if SyncingRange(peer, b) in rs.syncing then done + [b] else done;
            if r.Some? then EntryOk(u, r.value, done', said)
            else rs.uri == u && multiset(done') == multiset(Cut(rs.size))
  {
    FinishedConserves(rs, peer, b);
    if SyncingRange(peer, b) in rs.syncing {
      RemoveMembers(rs.syncing, LastOf(rs.syncing, SyncingRange(peer, b)));
    }
  }

  // The invariant of the system.

  ghost predicate AllOk(uris: Files, done: map<Text, seq<Block>>, said: seq<Said>) {
    forall u | u in uris :: EntryOk(u, uris[u], DoneOf(done, u), said)
  }

  /** Between its look at the ranges in flight and its assignment, the worker still has room for one more. */
  ghost predicate RoomLeft(s: Sys) {
    (s.worker.Cleared? || s.worker.Chosen?) && s.worker.uri in s.uris ==>
      |s.uris[s.worker.uri].syncing| < DOWNLOAD_LIMIT
  }

  /** The worker goes on only with a file that has an owner. */
  predicate OwnersCounted(w: Worker) { w.Counted? || w.Open? || w.Cleared? ==> w.n > 0 }

  ghost predicate Inv(s: Sys) {
    AllOk(s.uris, s.done, s.said) && RoomLeft(s) && Distinct(s.tasks) && OwnersCounted(s.worker)
  }

  lemma AtOk(s: Sys, u: Text, junk: u64)
    requires AllOk(s.uris, s.done, s.said)
    ensures EntryOk(u, At(s.uris, u, junk), DoneOf(s.done, u), s.said)
  {
  }

  /** The entry an announcement leaves behind. */
  lemma RegisterEntryOk(uris: Files, done: seq<Block>, said: seq<Said>, peer: NetAddr, u: Text, hash: Text, size: u64)
    requires u != [] && (u in uris ==> EntryOk(u, uris[u], done, said))
    ensures EntryOk(u, Register(uris, peer, u, hash, size).0[u], if Starts(uris, u, size) then [] else done,
                    said + [Said(u, Ann(peer, hash, size))])
  {
    var x := Said(u, Ann(peer, hash, size));
    if Starts(uris, u, size) {
      assert x in said + [x];
      FreshOk(u, peer, hash, size, said + [x]);
    } else {
      AnnouncedOk(u, uris[u], done, said, peer, hash, size);
    }
  }

  lemma AnnounceOk(s: Sys, e: Event)
    requires Inv(s) && e.Announce? && Enabled(s, e)
    ensures Inv(Next(s, e))
  {
    RegisterOk(s.uris, s.done, s.said, e.peer, e.uri, e.hash, e.size);
    if s.worker.Cleared? || s.worker.Chosen? {
      RegisterShrinks(s.uris, e.peer, e.uri, e.hash, e.size, s.worker.uri);
    }
  }

  lemma RegisterOk(uris: Files, done: map<Text, seq<Block>>, said: seq<Said>, peer: NetAddr, u: Text, hash: Text,
                   size: u64)
    requires AllOk(uris, done, said) && u != []
    ensures AllOk(Register(uris, peer, u, hash, size).0, if Starts(uris, u, size) then done[u := []] else done,
                  said + [Said(u, Ann(peer, hash, size))])
  {
    var rs := Register(uris, peer, u, hash, size).0[u];
    var done' := if Starts(uris, u, size) then done[u := []] else done;
    RegisterEntryOk(uris, DoneOf(done, u), said, peer, u, hash, size);
    SaidOk(uris, done, said, u, rs, done', Said(u, Ann(peer, hash, size)));
  }

  /** An announcement puts nothing in flight. */
  lemma RegisterShrinks(m: Files, peer: NetAddr, u: Text, hash: Text, size: u64, v: Text)
    ensures var m' := Register(m, peer, u, hash, size).0;
            v in m' ==> m'[v].syncing == [] || (v in m && m'[v].syncing == m[v].syncing)
  {
  }

  lemma SaidOk(uris: Files, done: map<Text, seq<Block>>, said: seq<Said>, u: Text, rs: SyncRs,
               done': map<Text, seq<Block>>, x: Said)
    requires AllOk(uris, done, said) && EntryOk(u, rs, DoneOf(done', u), said + [x])
    requires forall v | v != u :: DoneOf(done', v) == DoneOf(done, v)
    ensures AllOk(uris[u := rs], done', said + [x])
  {
    forall v | v in uris && v != u ensures EntryOk(v, uris[v], DoneOf(done', v), said + [x]) {
      SaidGrows(v, uris[v], DoneOf(done, v), said, x);
    }
  }

  /** The history of finished blocks after a completion. */
  function DoneAfter(uris: Files, done: map<Text, seq<Block>>, peer: NetAddr, u: Text, b: Block, junk: u64)
    : map<Text, seq<Block>>
  {
    if SyncingRange(peer, b) in At(uris, u, junk).syncing then done[u := DoneOf(done, u) + [b]] else done
  }

  /** The entry a completion leaves behind, if any. */
  lemma FinishEntryOk(uris: Files, done: map<Text, seq<Block>>, said: seq<Said>, peer: NetAddr, u: Text, b: Block,
                      junk: u64)
    requires EntryOk(u, At(uris, u, junk), DoneOf(done, u), said)
    ensures u in Finish(uris, peer, u, b, junk) ==>
      EntryOk(u, Finish(uris, peer, u, b, junk)[u], DoneOf(DoneAfter(uris, done, peer, u, b, junk), u), said)
  {
    FinishedOk(u, At(uris, u, junk), DoneOf(done, u), said, peer, b);
  }

  lemma FinishOk(uris: Files, done: map<Text, seq<Block>>, said: seq<Said>, peer: NetAddr, u: Text, b: Block, junk: u64)
    requires AllOk(uris, done, said)
    ensures AllOk(Finish(uris, peer, u, b, junk), DoneAfter(uris, done, peer, u, b, junk), said)
  {
    var uris', done' := Finish(uris, peer, u, b, junk), DoneAfter(uris, done, peer, u, b, junk);
    FinishEntryOk(uris, done, said, peer, u, b, junk);
    forall v | v in uris' ensures EntryOk(v, uris'[v], DoneOf(done', v), said) {
      if v != u {
        assert v in uris && uris'[v] == uris[v] && DoneOf(done', v) == DoneOf(done, v);
      }
    }
  }

  /** A completion leaves no more ranges in flight than there were. */
  lemma FinishShrinks(m: Files, peer: NetAddr, u: Text, b: Block, junk: u64, v: Text)
    requires v in Finish(m, peer, u, b, junk)
    ensures v in m ==> |Finish(m, peer, u, b, junk)[v].syncing| <= |m[v].syncing|
    ensures v !in m ==> Finish(m, peer, u, b, junk)[v].syncing == []
  {
  }

  lemma CompleteOk(s: Sys, e: Event)
    requires Inv(s) && e.Complete? && Enabled(s, e)
    ensures Inv(Next(s, e))
  {
    FinishOk(s.uris, s.done, s.said, s.loop.peer, s.loop.uri, s.loop.block, e.junk);
    if (s.worker.Cleared? || s.worker.Chosen?) && s.worker.uri in Next(s, e).uris {
      FinishShrinks(s.uris, s.loop.peer, s.loop.uri, s.loop.block, e.junk, s.worker.uri);
    }
  }

  /** The remaining steps change at most one entry and nothing of the history. */
  lemma OneEntryOk(s: Sys, u: Text, rs: SyncRs)
    requires AllOk(s.uris, s.done, s.said) && EntryOk(u, rs, DoneOf(s.done, u), s.said)
    ensures AllOk(s.uris[u := rs], s.done, s.said)
  {
  }

  lemma SaveFailedOk(s: Sys, e: Event)
    requires Inv(s) && e.SaveFailed? && Enabled(s, e)
    ensures Inv(Next(s, e))
  {
    var Saved(peer, u, b) := s.loop;
    var rs := At(s.uris, u, e.junk);
    AtOk(s, u, e.junk);
    GaveBackOk(u, rs, DoneOf(s.done, u), s.said, peer, b);
    OneEntryOk(s, u, GaveBack(rs, peer, b));
  }

  lemma SendFailedOk(s: Sys, e: Event)
    requires Inv(s) && e.SendFailed? && Enabled(s, e)
    ensures Inv(Next(s, e))
  {
    var u, peer := s.worker.uri, s.worker.peer;
    var rs := At(s.uris, u, e.junk);
    AtOk(s, u, e.junk);
    GaveBackAllOk(u, rs, DoneOf(s.done, u), s.said, peer);
    OneEntryOk(s, u, GaveBackAll(rs, peer));
  }

  lemma AllotOk(s: Sys, e: Event)
    requires Inv(s) && e.Allot? && Enabled(s, e)
    ensures Inv(Next(s, e))
  {
    var u, peer := s.worker.uri, s.worker.peer;
    var rs := At(s.uris, u, e.junk);
    AtOk(s, u, e.junk);
    AssignedOk(u, rs, DoneOf(s.done, u), s.said, peer);
    OneEntryOk(s, u, Assigned(rs, peer).0);
  }

  /** A lookup may leave a phantom behind, which has nothing in flight. */
  lemma LookOk(s: Sys, e: Event)
    requires Inv(s) && Enabled(s, e)
    requires e.CopyOwners? || e.CountOwners? || e.CountBlocks? || e.CountSyncing? || e.Choose?
    ensures Inv(Next(s, e))
  {
    AtOk(s, s.worker.uri, e.junk);
    OneEntryOk(s, s.worker.uri, At(s.uris, s.worker.uri, e.junk));
  }

  lemma QuietOk(s: Sys, e: Event)
    requires Inv(s) && Enabled(s, e)
    requires e.Save? || e.AddTask? || e.TakeTask? || e.Sent?
    ensures Inv(Next(s, e))
  {
  }

  lemma StepOk(s: Sys, e: Event)
    requires Inv(s) && Enabled(s, e)
    ensures Inv(Next(s, e))
  {
    match e {
      case Announce(_, _, _, _) => AnnounceOk(s, e);
      case Complete(_) => CompleteOk(s, e);
      case SaveFailed(_) => SaveFailedOk(s, e);
      case SendFailed(_) => SendFailedOk(s, e);
      case Allot(_) => AllotOk(s, e);
      case Save(_, _, _, _, _) => QuietOk(s, e);
      case AddTask(_) => QuietOk(s, e);
      case TakeTask => QuietOk(s, e);
      case Sent => QuietOk(s, e);
      case _ => LookOk(s, e);
    }
  }

  /** Every reachable state keeps the invariant, however the two threads interleave. */
  lemma {:induction false} RunOk(s: Sys, es: seq<Event>)
    requires Inv(s) && Run(s, es)
    ensures Inv(Exec(s, es))
    decreases |es|
  {
    if es != [] {
      StepOk(s, es[0]);
      RunOk(Next(s, es[0]), es[1..]);
    }
  }
}
