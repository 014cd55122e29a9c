// A request is made once. What becomes of a file whose replies are lost.
module LostReplies {
  import opened Octets
  import opened Blocks
  import opened Allocator
  import opened Machine
  import opened Handlers
  import opened Progress
  import opened Finishing

  /** As many ranges of the file are in flight as may be, and nothing is about to change that. */
  ghost predicate Full(s: Sys, u: Text) { Inv(s) && FullNow(s, u) }

  ghost predicate FullNow(s: Sys, u: Text) {
    && u in s.uris && |s.uris[u].syncing| == DOWNLOAD_LIMIT
    && !(s.worker.Sending? && s.worker.uri == u)
    && (s.loop.Saved? && s.loop.uri == u ==> SyncingRange(s.loop.peer, s.loop.block) !in s.uris[u].syncing)
  }

  /** Neither a larger version of the file nor a reply that answers a range in flight. */
  predicate NoHelp(e: Event, u: Text, rs: SyncRs) {
    && (e.Announce? && e.uri == u ==> e.size <= rs.size)
    && (e.Save? && e.uri == u && e.start + |e.data| < TWO_64 ==>
          SyncingRange(e.peer, Block(e.start, e.start + |e.data|)) !in rs.syncing)
  }

  /** The same blocks of the same version are open and in flight. */
  predicate SameBlocks(rs: SyncRs, rs': SyncRs) {
    rs'.size == rs.size && rs'.block == rs.block && rs'.syncing == rs.syncing
  }

  predicate KeepsBlocks(m: Files, m': Files, u: Text) { u in m && u in m' && SameBlocks(m[u], m'[u]) }

  lemma RegisterKeepsBlocks(m: Files, peer: NetAddr, v: Text, hash: Text, size: u64, u: Text)
    requires u in m && (v == u ==> size <= m[u].size)
    ensures KeepsBlocks(m, Register(m, peer, v, hash, size).0, u)
  {
  }

  lemma UnmatchedKeepsBlocks(m: Files, peer: NetAddr, v: Text, b: Block, junk: u64, u: Text)
    requires u in m && (v == u ==> SyncingRange(peer, b) !in m[u].syncing)
    ensures KeepsBlocks(m, Finish(m, peer, v, b, junk), u) && KeepsBlocks(m, GiveBack(m, peer, b, v, junk), u)
  {
  }

  lemma OtherKeepsBlocks(m: Files, peer: NetAddr, v: Text, junk: u64, u: Text)
    requires u in m && v != u
    ensures KeepsBlocks(m, Assign(m, peer, v, junk).0, u) && KeepsBlocks(m, GiveBackAll(m, peer, v, junk), u)
  {
  }

  lemma FullEntry(s: Sys, e: Event, u: Text)
    requires RoomLeft(s) && FullNow(s, u) && Enabled(s, e) && NoHelp(e, u, s.uris[u])
    ensures KeepsBlocks(s.uris, Next(s, e).uris, u)
  {
    match e {
      case Announce(peer, v, hash, size) => RegisterKeepsBlocks(s.uris, peer, v, hash, size, u);
      case Complete(junk) => UnmatchedKeepsBlocks(s.uris, s.loop.peer, s.loop.uri, s.loop.block, junk, u);
      case SaveFailed(junk) => UnmatchedKeepsBlocks(s.uris, s.loop.peer, s.loop.uri, s.loop.block, junk, u);
      case Allot(junk) => OtherKeepsBlocks(s.uris, s.worker.peer, s.worker.uri, junk, u);
      case SendFailed(junk) => OtherKeepsBlocks(s.uris, s.worker.peer, s.worker.uri, junk, u);
      case Save(_, _, _, _, _) =>
      case AddTask(_) =>
      case TakeTask =>
      case Sent =>
      case CopyOwners(_) =>
      case CountOwners(_) =>
      case CountBlocks(_) =>
      case CountSyncing(_) =>
      case Choose(_, _) =>
    }
  }

  lemma FullStep(s: Sys, e: Event, u: Text)
    requires Full(s, u) && Enabled(s, e) && NoHelp(e, u, s.uris[u])
    ensures KeepsBlocks(s.uris, Next(s, e).uris, u) && Full(Next(s, e), u)
  {
    StepOk(s, e);
    FullEntry(s, e, u);
    FullStays(s, e, u);
  }

  lemma FullStays(s: Sys, e: Event, u: Text)
    requires RoomLeft(s) && FullNow(s, u) && Enabled(s, e) && NoHelp(e, u, s.uris[u])
    requires KeepsBlocks(s.uris, Next(s, e).uris, u)
    ensures FullNow(Next(s, e), u)
  {
  }

  /**
   * Five lost replies stop a file for good: until one of them comes after all, or a larger version is announced,
   * nothing of it is ever asked for again.
   */
  lemma {:induction false} LostForGood(s: Sys, es: seq<Event>, u: Text, rs: SyncRs)
    requires Full(s, u) && SameBlocks(rs, s.uris[u]) && Run(s, es) && forall e | e in es :: NoHelp(e, u, rs)
    ensures Full(Exec(s, es), u) && SameBlocks(rs, Exec(s, es).uris[u])
    decreases |es|
  {
    if es != [] {
      assert es[0] in es;
      FullStep(s, es[0], u);
      LostForGood(Next(s, es[0]), es[1..], u, rs);
    }
  }

  /** The only file, with nothing going on. */
  ghost predicate Calm(s: Sys, u: Text) {
    Alive(s, u) && OnlyFile(s, u) && s.worker.Idle? && s.loop.Waiting? && s.tasks == []
  }

  /** The pending task makes the worker ask for one more block. */
  lemma TaskAsks(s: Sys, u: Text)
    requires Alive(s, u) && OnlyFile(s, u) && s.worker.Idle? && s.loop.Waiting? && s.tasks == [u]
    requires s.uris[u].block != [] && |s.uris[u].syncing| < DOWNLOAD_LIMIT
    ensures Run(s, AskEvents()) && Produced(s, AskEvents()) && Calm(Exec(s, AskEvents()), u)
    ensures Exec(s, AskEvents()).uris[u] == Assigned(s.uris[u], s.uris[u].owner[0]).0
  {
    TaskAskRuns(s, u);
    RunOk(s, AskEvents());
    LessWork(s.uris[u]);
  }

  lemma TaskAskRuns(s: Sys, u: Text)
    requires Alive(s, u) && s.worker.Idle? && s.tasks == [u]
    requires s.uris[u].block != [] && |s.uris[u].syncing| < DOWNLOAD_LIMIT
    ensures Run(s, AskEvents()) && Produced(s, AskEvents())
    ensures Exec(s, AskEvents()) == s.(tasks := [], uris := s.uris[u := Assigned(s.uris[u], s.uris[u].owner[0]).0])
  {
    assert LastOpen(s.uris[u]) in Held(s.uris[u]);
    HeldBlockFits(s, u, LastOpen(s.uris[u]));
    AskRuns(s, u);
    assert s.tasks[1..] == [];
  }

  /** A table without news leaves such a task. */
  lemma OneMore(s: Sys, u: Text) returns (es: seq<Event>)
    requires Calm(s, u) && s.uris[u].block != [] && |s.uris[u].syncing| < DOWNLOAD_LIMIT
    ensures Run(s, es) && Produced(s, es) && Calm(Exec(s, es), u)
    ensures Exec(s, es).uris[u] == Assigned(s.uris[u], s.uris[u].owner[0]).0
  {
    var adds := AddsFor(s, u);
    OnlyFileRefreshed(s, u);
    RunOk(s, adds);
    assert Exec(s, adds) == s.(tasks := [u]);
    TaskAsks(s.(tasks := [u]), u);
    ProducedThen(s, adds, AskEvents());
    es := adds + AskEvents();
  }

  lemma {:induction false} ManyMore(s: Sys, u: Text, k: nat) returns (es: seq<Event>)
    requires Calm(s, u) && k <= |s.uris[u].block| && |s.uris[u].syncing| + k <= DOWNLOAD_LIMIT
    ensures Run(s, es) && Produced(s, es) && Calm(Exec(s, es), u)
    ensures |Exec(s, es).uris[u].syncing| == |s.uris[u].syncing| + k
    decreases k
  {
    if k == 0 {
      HandledIsProduced(s, []);
      return [];
    }
    es := OneMore(s, u);
    assert s.uris[u].owner[0] in s.uris[u].owner;
    var more := ManyMore(Exec(s, es), u, k - 1);
    ProducedThen(s, es, more);
    es := es + more;
  }

  /** A file is announced, and its first block asked for. */
  lemma FirstAsked(p: NetAddr, u: Text, hash: Text, size: u64) returns (es: seq<Event>)
    requires u != [] && size > 0
    ensures Run(Init(map[]), es) && Produced(Init(map[]), es) && Calm(Exec(Init(map[]), es), u)
    ensures var rs := Exec(Init(map[]), es).uris[u]; |rs.block| == |Cut(size)| - 1 && |rs.syncing| == 1
  {
    var s := Init(map[]);
    var first := FirstAnnounced(p, u, hash, size);
    RunOk(s, first);
    TaskAsks(Exec(s, first), u);
    ProducedThen(s, first, AskEvents());
    es := first + AskEvents();
  }

  /** A run from the start that gets there, for every file of at least five blocks. */
  lemma FiveLost(p: NetAddr, u: Text, hash: Text, size: u64) returns (es: seq<Event>)
    requires u != [] && size > 0 && |Cut(size)| >= 5
    ensures Run(Init(map[]), es) && Produced(Init(map[]), es) && Full(Exec(Init(map[]), es), u)
    ensures |Exec(Init(map[]), es).uris[u].syncing| == 5
    ensures var s := Exec(Init(map[]), es);
            forall more | Run(s, more) && (forall e | e in more :: NoHelp(e, u, s.uris[u])) ::
              KeepsBlocks(s.uris, Exec(s, more).uris, u)
  {
    var s := Init(map[]);
    var first := FirstAsked(p, u, hash, size);
    var more := ManyMore(Exec(s, first), u, DOWNLOAD_LIMIT - 1);
    ProducedThen(s, first, more);
    es := first + more;
    var full := Exec(s, es);
    forall fs | Run(full, fs) && forall e | e in fs :: NoHelp(e, u, full.uris[u])
      ensures KeepsBlocks(full.uris, Exec(full, fs).uris, u)
    {
      LostForGood(full, fs, u, full.uris[u]);
    }
  }
}
