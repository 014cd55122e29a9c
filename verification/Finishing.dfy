// From which states a download can still be finished.
module Finishing {
  import opened Octets
  import opened Blocks
  import opened Allocator
  import opened FileIo
  import opened Machine
  import opened Handlers
  import opened Downloads
  import opened Accounting
  import opened Progress

  // A worker that cannot go on.

  /**
   * The worker copied an empty list of owners and will index it: by the time it counted them the file had an
   * owner. Nothing that can still happen stops it before that.
   */
  predicate Doomed(s: Sys) {
    match s.worker
    case Copied(v, owners) =>
      var rs := At(s.uris, v, 0);
      owners == [] && rs.owner != [] && rs.block != [] && |rs.syncing| < DOWNLOAD_LIMIT
    case Counted(v, owners, _) =>
      var rs := At(s.uris, v, 0);
      owners == [] && rs.block != [] && |rs.syncing| < DOWNLOAD_LIMIT
    case Open(v, owners, _) => owners == [] && |At(s.uris, v, 0).syncing| < DOWNLOAD_LIMIT
    case Cleared(_, owners, _) => owners == []
    case _ => false
  }

  /** An entry with open blocks stays one, with an owner if it had one, and nothing more is in flight. */
  predicate KeepsOpen(m: Files, m': Files, v: Text) {
    && |At(m', v, 0).syncing| <= |At(m, v, 0).syncing|
    && (At(m, v, 0).block != [] ==> At(m', v, 0).block != [])
    && (At(m, v, 0).block != [] && At(m, v, 0).owner != [] ==> At(m', v, 0).owner != [])
  }

  lemma RegisterKeeps(m: Files, peer: NetAddr, u: Text, hash: Text, size: u64, v: Text)
    ensures KeepsOpen(m, Register(m, peer, u, hash, size).0, v)
  {
    CutNotEmpty(size);
  }

  lemma FinishKeeps(m: Files, peer: NetAddr, u: Text, b: Block, junk: u64, v: Text)
    ensures KeepsOpen(m, Finish(m, peer, u, b, junk), v)
  {
  }

  lemma GiveBackKeeps(m: Files, peer: NetAddr, b: Block, u: Text, junk: u64, v: Text)
    ensures KeepsOpen(m, GiveBack(m, peer, b, u, junk), v)
  {
  }

  lemma TouchKeeps(m: Files, u: Text, junk: u64, v: Text)
    ensures KeepsOpen(m, Touch(m, u, junk), v)
  {
  }

  /** Only an assignment or a failed request does otherwise. */
  lemma StepKeepsOpen(s: Sys, e: Event, v: Text)
    requires Enabled(s, e) && !e.Allot? && !e.SendFailed?
    ensures KeepsOpen(s.uris, Next(s, e).uris, v)
  {
    match e {
      case Announce(peer, u, hash, size) => RegisterKeeps(s.uris, peer, u, hash, size, v);
      case Complete(junk) => FinishKeeps(s.uris, s.loop.peer, s.loop.uri, s.loop.block, junk, v);
      case SaveFailed(junk) => GiveBackKeeps(s.uris, s.loop.peer, s.loop.block, s.loop.uri, junk, v);
      case Save(_, _, _, _, _) =>
      case AddTask(_) =>
      case TakeTask =>
      case Sent =>
      case CopyOwners(junk) => TouchKeeps(s.uris, s.worker.uri, junk, v);
      case CountOwners(junk) => TouchKeeps(s.uris, s.worker.uri, junk, v);
      case CountBlocks(junk) => TouchKeeps(s.uris, s.worker.uri, junk, v);
      case CountSyncing(junk) => TouchKeeps(s.uris, s.worker.uri, junk, v);
      case Choose(_, junk) => TouchKeeps(s.uris, s.worker.uri, junk, v);
      case Allot(_) =>
      case SendFailed(_) =>
    }
  }

  lemma DoomedStays(s: Sys, e: Event)
    requires Enabled(s, e) && Doomed(s)
    ensures Doomed(Next(s, e)) && !e.Allot? && !e.SendFailed?
  {
    StepKeepsOpen(s, e, s.worker.uri);
  }

  /** While the worker is doomed, a file with open blocks keeps some, whatever happens. */
  lemma {:induction false} DoomedForGood(s: Sys, es: seq<Event>, u: Text)
    requires Run(s, es) && Doomed(s) && At(s.uris, u, 0).block != []
    ensures Doomed(Exec(s, es)) && At(Exec(s, es).uris, u, 0).block != []
    decreases |es|
  {
    if es != [] {
      DoomedStays(s, es[0]);
      StepKeepsOpen(s, es[0], u);
      DoomedForGood(Next(s, es[0]), es[1..], u);
    }
  }

  // Runs that lead on.

  /** A run the handlers can produce, without announcements, whose replies carry the tracked versions. */
  ghost predicate Leads(s: Sys, es: seq<Event>, src: Version -> seq<byte>) {
    Run(s, es) && Produced(s, es) && FaithfulRun(s, es, src) && forall e | e in es :: !e.Announce?
  }

  lemma {:induction false} FaithfulThen(s: Sys, es: seq<Event>, fs: seq<Event>, src: Version -> seq<byte>)
    requires Run(s, es) && FaithfulRun(s, es, src) && Run(Exec(s, es), fs) && FaithfulRun(Exec(s, es), fs, src)
    ensures Run(s, es + fs) && FaithfulRun(s, es + fs, src)
    decreases |es|
  {
    RunThen(s, es, fs);
    if es == [] {
      assert es + fs == fs;
    } else {
      assert (es + fs)[1..] == es[1..] + fs;
      FaithfulThen(Next(s, es[0]), es[1..], fs, src);
    }
  }

  lemma LeadsThen(s: Sys, es: seq<Event>, fs: seq<Event>, src: Version -> seq<byte>)
    requires Leads(s, es, src) && Leads(Exec(s, es), fs, src)
    ensures Leads(s, es + fs, src) && Exec(s, es + fs) == Exec(Exec(s, es), fs)
  {
    ProducedThen(s, es, fs);
    FaithfulThen(s, es, fs, src);
  }

  lemma {:induction false} QuietIsFaithful(s: Sys, es: seq<Event>, src: Version -> seq<byte>)
    requires Run(s, es) && forall e | e in es :: !e.Save?
    ensures FaithfulRun(s, es, src)
    decreases |es|
  {
    if es != [] {
      assert es[0] in es;
      QuietIsFaithful(Next(s, es[0]), es[1..], src);
    }
  }

  lemma WorkerLeads(s: Sys, e: Event, src: Version -> seq<byte>)
    requires Enabled(s, e) && OfWorker(e)
    ensures Leads(s, [e], src) && Exec(s, [e]) == Next(s, e)
  {
    RunOne(s, [], e);
    assert [] + [e] == [e];
    WorkerProduces(s, [e]);
    QuietIsFaithful(s, [e], src);
  }

  // Getting the worker out of the way.

  /** A file that is tracked and not empty; and one that has an owner besides. */
  ghost predicate UnderWay(s: Sys, u: Text) { Inv(s) && Tracked(s, u) && s.uris[u].size > 0 }

  ghost predicate Alive(s: Sys, u: Text) { UnderWay(s, u) && s.uris[u].owner != [] }

  /** What the worker does next when nothing fails. */
  function WorkersTurn(w: Worker): Event {
    match w
    case Idle => TakeTask
    case Started(_) => CopyOwners(0)
    case Copied(_, _) => CountOwners(0)
    case Counted(_, _, _) => CountBlocks(0)
    case Open(_, _, _) => CountSyncing(0)
    case Cleared(_, _, _) => Choose(0, 0)
    case Chosen(_, _) => Allot(0)
    case Sending(_, _, _) => Sent
  }

  function StepsToGo(w: Worker): nat {
    match w
    case Idle => 0
    case Started(_) => 7
    case Copied(_, _) => 6
    case Counted(_, _, _) => 5
    case Open(_, _, _) => 4
    case Cleared(_, _, _) => 3
    case Chosen(_, _) => 2
    case Sending(_, _, _) => 1
  }

  lemma TurnEnabled(s: Sys)
    requires Inv(s) && !Doomed(s) && !s.worker.Idle?
    ensures Enabled(s, WorkersTurn(s.worker)) && OfWorker(WorkersTurn(s.worker))
  {
  }

  lemma TurnCounts(s: Sys)
    requires Enabled(s, WorkersTurn(s.worker)) && !Doomed(s) && !s.worker.Idle?
    ensures var t := Next(s, WorkersTurn(s.worker));
            && !Doomed(t) && StepsToGo(t.worker) < StepsToGo(s.worker)
            && t.loop == s.loop && t.tasks == s.tasks
            && (t.worker.Idle? || t.worker.uri == s.worker.uri)
  {
  }

  /** The same version of the file, with the same owners. */
  predicate SameFile(s: Sys, t: Sys, u: Text) {
    u in s.uris && u in t.uris && SameVersion(s.uris[u], t.uris[u]) && t.uris[u].owner == s.uris[u].owner
  }

  /** The worker's turn changes nothing of a file but which blocks are in flight, and of other files nothing. */
  lemma TurnKeepsFile(s: Sys, u: Text)
    requires Enabled(s, WorkersTurn(s.worker)) && Tracked(s, u)
    ensures var t := Next(s, WorkersTurn(s.worker));
            SameFile(s, t, u) && (!s.worker.Idle? && s.worker.uri != u ==> t.uris[u] == s.uris[u])
  {
  }

  /** The worker runs its task to the end. */
  lemma {:induction false} ToIdle(s: Sys, u: Text, src: Version -> seq<byte>) returns (es: seq<Event>)
    requires UnderWay(s, u) && !Doomed(s)
    ensures Leads(s, es, src) && UnderWay(Exec(s, es), u) && SameFile(s, Exec(s, es), u)
    ensures var t := Exec(s, es);
            && t.worker.Idle? && t.loop == s.loop && t.tasks == s.tasks
            && (s.worker.Idle? || s.worker.uri != u ==> t.uris[u] == s.uris[u])
    decreases StepsToGo(s.worker)
  {
    if s.worker.Idle? {
      HandledIsProduced(s, []);
      return [];
    }
    var e := WorkersTurn(s.worker);
    TurnEnabled(s);
    TurnCounts(s);
    TurnKeepsFile(s, u);
    StepOk(s, e);
    WorkerLeads(s, e, src);
    var more := ToIdle(Next(s, e), u, src);
    LeadsThen(s, [e], more, src);
    es := [e] + more;
  }

  lemma AskLeads(s: Sys, u: Text, src: Version -> seq<byte>)
    requires Alive(s, u) && Askable(s, u) && s.worker.Idle? && s.tasks != [] && s.tasks[0] == u
    ensures Leads(s, AskEvents(), src) && UnderWay(Exec(s, AskEvents()), u)
    ensures var t := Exec(s, AskEvents());
            && t.worker.Idle? && t.loop == s.loop && u in t.uris
            && t.uris[u] == Assigned(s.uris[u], s.uris[u].owner[0]).0
  {
    AskRuns(s, u);
    AskIsOfWorker();
    QuietIsFaithful(s, AskEvents(), src);
    RunOk(s, AskEvents());
  }

  /** The worker runs its tasks until it has asked for a block of this file. */
  lemma {:induction false} AskedInTurn(s: Sys, u: Text, src: Version -> seq<byte>) returns (es: seq<Event>)
    requires Alive(s, u) && Askable(s, u) && s.worker.Idle? && u in s.tasks
    ensures Leads(s, es, src) && UnderWay(Exec(s, es), u)
    ensures var t := Exec(s, es);
            && t.worker.Idle? && t.loop == s.loop
            && t.uris[u] == Assigned(s.uris[u], s.uris[u].owner[0]).0
    decreases |s.tasks|
  {
    if s.tasks[0] == u {
      AskLeads(s, u, src);
      return AskEvents();
    }
    StepOk(s, TakeTask);
    WorkerLeads(s, TakeTask, src);
    var t := Next(s, TakeTask);
    var idle := ToIdle(t, u, src);
    var more := AskedInTurn(Exec(t, idle), u, src);
    LeadsThen(t, idle, more, src);
    LeadsThen(s, [TakeTask], idle + more, src);
    es := [TakeTask] + (idle + more);
  }

  // Block by block.

  /** A block of the cut can be asked for and saved. */
  lemma BlockFits(size: u64, b: Block)
    requires size > 0 && b in Cut(size)
    ensures b.start < b.end <= size && b.end - b.start <= BLOCK_SIZE && b.end < TWO_63
  {
    var i :| 0 <= i < |Cut(size)| && Cut(size)[i] == b;
    BlockShape(size, i);
    assert b == Nth(size, i);
    assert size > BLOCK_SIZE ==> i < TWO_32 && b.end <= i * BLOCK_SIZE + BLOCK_SIZE;
  }

  lemma HeldBlockFits(s: Sys, u: Text, b: Block)
    requires UnderWay(s, u) && b in Held(s.uris[u])
    ensures b.start < b.end <= s.uris[u].size && b.end - b.start <= BLOCK_SIZE && b.end < TWO_63
  {
    assert b in Held(s.uris[u]) + multiset(DoneOf(s.done, u));
    assert b in multiset(Cut(s.uris[u].size));
    BlockFits(s.uris[u].size, b);
  }

  /** The bytes of the tracked version. */
  function ContentNow(s: Sys, u: Text, src: Version -> seq<byte>): seq<byte>
    requires u in s.uris
  {
    src(VersionOf(u, s.uris[u]))
  }

  ghost predicate BytesKnown(s: Sys, u: Text, src: Version -> seq<byte>) {
    u in s.uris && |ContentNow(s, u, src)| >= s.uris[u].size
  }

  /** What is on disk after a run that dropped the file. */
  ghost predicate EndsRight(s: Sys, es: seq<Event>, u: Text, src: Version -> seq<byte>)
    requires u in s.uris && Run(s, es)
  {
    ContentOk(s, src) ==> HoldsUpTo(FileOf(Exec(s, es).disk, u), ContentNow(s, u, src), Reach(s.uris[u].size))
  }

  /** The completion that drops the file leaves it right. */
  lemma DropsRight(s: Sys, u: Text, src: Version -> seq<byte>)
    requires Inv(s) && s.loop.Saved? && Tracked(s, u) && u !in Next(s, Complete(0)).uris && ContentOk(s, src)
    ensures HoldsUpTo(FileOf(s.disk, u), ContentNow(s, u, src), Reach(s.uris[u].size))
  {
    forall o | 0 <= o < Reach(s.uris[u].size) ensures ByteRight(FileOf(s.disk, u), ContentNow(s, u, src), o) {
      DroppedByte(s, Complete(0), u, ContentNow(s, u, src), o);
    }
  }

  /** The range in flight that was added last. */
  function LastFlying(rs: SyncRs): SyncingRange
    requires rs.syncing != []
  {
    rs.syncing[|rs.syncing| - 1]
  }

  lemma LastFlyingHeld(rs: SyncRs)
    requires rs.syncing != []
    ensures LastFlying(rs).block in Held(rs)
  {
  }

  /** What is left of the entry once that range is completed. */
  lemma LastCompleted(m: Files, u: Text)
    requires u in m && m[u].syncing != []
    ensures var r, rs := LastFlying(m[u]), m[u];
            Finish(m, r.peer, u, r.block, 0)
            == if rs.block == [] && |rs.syncing| == 1 then m - {u}
               else m[u := rs.(syncing := rs.syncing[..|rs.syncing| - 1])]
  {
    var rs, n := m[u], |m[u].syncing| - 1;
    assert RemoveAt(rs.syncing, n) == rs.syncing[..n];
  }

  /** The reply for that range. */
  function HonestReply(s: Sys, u: Text, src: Version -> seq<byte>): Event
    requires u in s.uris && s.uris[u].syncing != []
  {
    var r := LastFlying(s.uris[u]);
    Save(r.peer, u, r.block.start, Slice(ContentNow(s, u, src), r.block.start, r.block.end), Opened([]))
  }

  lemma ReplyIsFaithful(s: Sys, u: Text, src: Version -> seq<byte>)
    requires UnderWay(s, u) && BytesKnown(s, u, src) && s.loop.Waiting? && s.uris[u].syncing != []
    ensures var save, b := HonestReply(s, u, src), LastFlying(s.uris[u]).block;
            && Enabled(s, save) && Faithful(s, save, src)
            && b.start + |save.data| == b.end < TWO_63 && |save.data| <= ONCE_MAX
  {
    LastFlyingHeld(s.uris[u]);
    HeldBlockFits(s, u, LastFlying(s.uris[u]).block);
  }

  lemma FaithfulReply(s: Sys, save: Event, adds: seq<Event>, src: Version -> seq<byte>)
    requires Run(s, [save, Complete(0)] + adds) && Faithful(s, save, src) && forall e | e in adds :: e.AddTask?
    ensures FaithfulRun(s, [save, Complete(0)] + adds, src)
  {
    var es := [save, Complete(0)] + adds;
    assert es[0] == save && es[1..] == [Complete(0)] + adds;
    QuietIsFaithful(Next(s, save), es[1..], src);
  }

  /** What that reply leaves, before the sweep. */
  function Honestly(s: Sys, u: Text, src: Version -> seq<byte>): Sys
    requires u in s.uris && s.uris[u].syncing != []
  {
    var r := LastFlying(s.uris[u]);
    Taken(s, r.peer, u, r.block, HonestReply(s, u, src).data)
  }

  lemma ReplyLeads(s: Sys, u: Text, src: Version -> seq<byte>) returns (es: seq<Event>, tasks: seq<Text>)
    requires UnderWay(s, u) && BytesKnown(s, u, src) && s.loop.Waiting? && s.uris[u].syncing != []
    ensures Leads(s, es, src) && Exec(s, es) == Honestly(s, u, src).(tasks := tasks)
  {
    var r, save := LastFlying(s.uris[u]), HonestReply(s, u, src);
    ReplyIsFaithful(s, u, src);
    var adds := SweepRuns(Honestly(s, u, src));
    AnswerProduces(s, r.peer, u, r.block, save.data, adds);
    assert AnswerEvents(r.peer, u, r.block, save.data) == [save, Complete(0)];
    es, tasks := [save, Complete(0)] + adds, EnqueueAll(s.tasks, adds);
    FaithfulReply(s, save, adds, src);
  }

  lemma HonestlyDropped(s: Sys, u: Text, src: Version -> seq<byte>)
    requires UnderWay(s, u) && BytesKnown(s, u, src) && s.loop.Waiting? && s.uris[u].syncing != []
    requires u !in Honestly(s, u, src).uris && ContentOk(s, src)
    ensures HoldsUpTo(FileOf(Honestly(s, u, src).disk, u), ContentNow(s, u, src), Reach(s.uris[u].size))
  {
    var r, save := LastFlying(s.uris[u]), HonestReply(s, u, src);
    ReplyIsFaithful(s, u, src);
    AnswerRuns(s, r.peer, u, r.block, save.data);
    assert AnswerEvents(r.peer, u, r.block, save.data) == [save, Complete(0)];
    RunTwo(s, save, Complete(0));
    SavedThenDropped(s, u, save, src);
  }

  /** A range in flight is answered, and the tasks swept. */
  lemma Answered(s: Sys, u: Text, src: Version -> seq<byte>) returns (es: seq<Event>)
    requires UnderWay(s, u) && BytesKnown(s, u, src) && s.loop.Waiting? && s.uris[u].syncing != []
    ensures Leads(s, es, src)
    ensures var t, rs := Exec(s, es), s.uris[u];
            && t.worker == s.worker && t.loop.Waiting?
            && t.uris == if rs.block == [] && |rs.syncing| == 1 then s.uris - {u}
                         else s.uris[u := rs.(syncing := rs.syncing[..|rs.syncing| - 1])]
    ensures u !in Exec(s, es).uris ==> EndsRight(s, es, u, src)
  {
    var tasks;
    es, tasks := ReplyLeads(s, u, src);
    LastCompleted(s.uris, u);
    if u !in Honestly(s, u, src).uris && ContentOk(s, src) {
      HonestlyDropped(s, u, src);
    }
  }

  lemma SavedThenDropped(s: Sys, u: Text, save: Event, src: Version -> seq<byte>)
    requires Inv(s) && Tracked(s, u) && Enabled(s, save) && save.Save? && Faithful(s, save, src) && ContentOk(s, src)
    requires u !in Next(Next(s, save), Complete(0)).uris
    ensures HoldsUpTo(FileOf(Next(s, save).disk, u), ContentNow(s, u, src), Reach(s.uris[u].size))
  {
    StepOk(s, save);
    ContentStep(s, save, src);
    DropsRight(Next(s, save), u, src);
  }

  /** A table without news sets the worker to work. */
  lemma Asked(s: Sys, u: Text, src: Version -> seq<byte>) returns (es: seq<Event>)
    requires Alive(s, u) && s.loop.Waiting? && s.worker.Idle?
    requires s.uris[u].syncing == [] && s.uris[u].block != []
    ensures Leads(s, es, src) && UnderWay(Exec(s, es), u)
    ensures var t := Exec(s, es);
            t.worker.Idle? && t.loop.Waiting? && t.uris[u] == Assigned(s.uris[u], s.uris[u].owner[0]).0
  {
    var b := LastOpen(s.uris[u]);
    assert b in Held(s.uris[u]);
    HeldBlockFits(s, u, b);
    var adds := SweepRuns(s);
    SweepProduces(s, adds);
    QuietIsFaithful(s, adds, src);
    RunOk(s, adds);
    assert HasRoom(s, u);
    var asked := AskedInTurn(Exec(s, adds), u, src);
    LeadsThen(s, adds, asked, src);
    es := adds + asked;
  }

  lemma LessWork(rs: SyncRs)
    requires rs.block != [] && rs.owner != []
    ensures var given := Assigned(rs, rs.owner[0]).0;
            2 * |given.block| + |given.syncing| < 2 * |rs.block| + |rs.syncing|
    ensures Assigned(rs, rs.owner[0]).0.owner == rs.owner && SameVersion(rs, Assigned(rs, rs.owner[0]).0)
  {
    assert rs.owner[0] in rs.owner;
  }

  /** The end of one part of a run is the end of the whole. */
  lemma EndsRightThen(s: Sys, es: seq<Event>, fs: seq<Event>, u: Text, src: Version -> seq<byte>)
    requires Inv(s) && Leads(s, es, src) && Leads(Exec(s, es), fs, src)
    requires u in s.uris && u in Exec(s, es).uris && SameVersion(s.uris[u], Exec(s, es).uris[u])
    requires EndsRight(Exec(s, es), fs, u, src)
    ensures Run(s, es + fs) && EndsRight(s, es + fs, u, src)
  {
    LeadsThen(s, es, fs, src);
    if ContentOk(s, src) {
      ContentRun(s, es, src);
    }
  }

  /** The rest of a download, when the worker is out of the way or no longer needed. */
  lemma {:induction false} RestRuns(s: Sys, u: Text, src: Version -> seq<byte>) returns (es: seq<Event>)
    requires Alive(s, u) && BytesKnown(s, u, src) && s.loop.Waiting?
    requires s.uris[u].block == [] || s.worker.Idle?
    ensures Leads(s, es, src) && u !in Exec(s, es).uris && EndsRight(s, es, u, src)
    decreases Work(s, u)
  {
    var rs := s.uris[u];
    assert EntryOk(u, rs, DoneOf(s.done, u), s.said);
    if rs.syncing != [] {
      es := Answered(s, u, src);
    } else {
      es := Asked(s, u, src);
      LessWork(rs);
    }
    RunOk(s, es);
    var t := Exec(s, es);
    if u in t.uris {
      var more := RestRuns(t, u, src);
      LeadsThen(s, es, more, src);
      EndsRightThen(s, es, more, u, src);
      es := es + more;
    }
  }

  /** A completion leaves the file as it is but for a range in flight, or takes it away. */
  lemma FinishKeepsFile(m: Files, peer: NetAddr, v: Text, b: Block, junk: u64, u: Text)
    requires u in m
    ensures var m', rs := Finish(m, peer, v, b, junk), m[u];
            && (u in m' ==> SameVersion(rs, m'[u]) && m'[u].block == rs.block && m'[u].owner == rs.owner)
            && (u !in m' ==> rs.block == [])
  {
  }

  /** The event thread finishes the reply it is at. */
  lemma ToWaiting(s: Sys, u: Text, src: Version -> seq<byte>) returns (es: seq<Event>)
    requires UnderWay(s, u)
    ensures Leads(s, es, src)
    ensures var t := Exec(s, es);
            && t.loop.Waiting? && t.worker == s.worker
            && (u in t.uris ==> UnderWay(t, u) && SameFile(s, t, u) && t.uris[u].block == s.uris[u].block)
    ensures u !in Exec(s, es).uris ==> s.uris[u].block == [] && EndsRight(s, es, u, src)
  {
    if s.loop.Waiting? {
      HandledIsProduced(s, []);
      return [];
    }
    var tasks;
    es, tasks := CompletionLeads(s, src);
    RunOk(s, es);
    FinishKeepsFile(s.uris, s.loop.peer, s.loop.uri, s.loop.block, 0, u);
    if u !in Next(s, Complete(0)).uris && ContentOk(s, src) {
      DropsRight(s, u, src);
    }
  }

  lemma CompletionLeads(s: Sys, src: Version -> seq<byte>) returns (es: seq<Event>, tasks: seq<Text>)
    requires s.loop.Saved?
    ensures Leads(s, es, src) && Exec(s, es) == Next(s, Complete(0)).(tasks := tasks)
  {
    RunOne(s, [], Complete(0));
    assert [] + [Complete(0)] == [Complete(0)];
    var adds := SweepRuns(Next(s, Complete(0)));
    CompletionProduces(s, Complete(0), adds);
    es, tasks := [Complete(0)] + adds, EnqueueAll(s.tasks, adds);
    QuietIsFaithful(s, es, src);
  }

  /**
   * From every state in which a file that is not empty has an owner, wherever the two threads stand, honest
   * replies alone can complete it, and it is right as far as its blocks reach if it was so far; unless the
   * worker is doomed and still needed.
   */
  lemma CanFinish(s: Sys, u: Text, src: Version -> seq<byte>) returns (es: seq<Event>)
    requires Alive(s, u) && BytesKnown(s, u, src)
    requires s.uris[u].block == [] || !Doomed(s)
    ensures Leads(s, es, src) && u !in Exec(s, es).uris && EndsRight(s, es, u, src)
  {
    if s.uris[u].block == [] {
      es := FinishWaiting(s, u, src);
    } else {
      es := ToIdle(s, u, src);
      var more := FinishWaiting(Exec(s, es), u, src);
      LeadsThen(s, es, more, src);
      EndsRightThen(s, es, more, u, src);
      es := es + more;
    }
  }

  lemma FinishWaiting(s: Sys, u: Text, src: Version -> seq<byte>) returns (es: seq<Event>)
    requires Alive(s, u) && BytesKnown(s, u, src) && (s.uris[u].block == [] || s.worker.Idle?)
    ensures Leads(s, es, src) && u !in Exec(s, es).uris && EndsRight(s, es, u, src)
  {
    es := ToWaiting(s, u, src);
    var t := Exec(s, es);
    if u in t.uris {
      var rest := RestRuns(t, u, src);
      LeadsThen(s, es, rest, src);
      EndsRightThen(s, es, rest, u, src);
      es := es + rest;
    }
  }

  /** A file without owners has nothing in flight; its version only needs to be announced again. */
  lemma FinishAnnounced(s: Sys, u: Text) returns (es: seq<Event>)
    requires UnderWay(s, u) && s.uris[u].owner == [] && !Doomed(s)
    ensures Run(s, es) && Produced(s, es) && u !in Exec(s, es).uris
  {
    var rs := s.uris[u];
    var src := (v: Version) => Zeros(rs.size);
    assert EntryOk(u, rs, DoneOf(s.done, u), s.said);
    assert forall r | r in rs.syncing :: r.peer in rs.owner;
    assert rs.syncing == [];
    var idle := ToIdle(s, u, src);
    var t := Exec(s, idle);
    assert t.uris[u].block != [] by {
      assert EntryOk(u, t.uris[u], DoneOf(t.done, u), t.said);
      assert forall r | r in t.uris[u].syncing :: r.peer in t.uris[u].owner;
    }
    var wait := ToWaiting(t, u, src);
    LeadsThen(s, idle, wait, src);
    var more := OwnedAgain(Exec(t, wait), u);
    ProducedThen(s, idle + wait, more);
    es := idle + wait + more;
  }

  lemma OwnedAgain(s: Sys, u: Text) returns (es: seq<Event>)
    requires UnderWay(s, u) && s.uris[u].owner == [] && s.worker.Idle? && s.loop.Waiting?
    ensures Run(s, es) && Produced(s, es) && u !in Exec(s, es).uris
  {
    var rs := s.uris[u];
    var src := (v: Version) => Zeros(rs.size);
    var e := Announce(NetAddr(0, 0, 0), u, rs.hash, rs.size);
    assert EntryOk(u, rs, DoneOf(s.done, u), s.said);
    var t := Next(s, e);
    StepOk(s, e);
    var adds := SweepRuns(t);
    AnnouncementProduces(s, e, adds);
    es := [e] + adds;
    RunOk(t, adds);
    var more := RestRuns(Exec(s, es), u, src);
    ProducedThen(s, es, more);
    es := es + more;
  }

  /**
   * The exact condition: if no block is open or the worker is not doomed, the handlers can produce a run that
   * completes the file; otherwise no run does.
   */
  lemma CanFinishIff(s: Sys, u: Text)
    requires UnderWay(s, u)
    ensures s.uris[u].block == [] || !Doomed(s) ==> exists es :: Produced(s, es) && Run(s, es) && u !in Exec(s, es).uris
    ensures s.uris[u].block != [] && Doomed(s) ==> forall es | Run(s, es) :: u in Exec(s, es).uris
  {
    if s.uris[u].block != [] && Doomed(s) {
      forall es | Run(s, es) ensures u in Exec(s, es).uris {
        DoomedForGood(s, es, u);
      }
    } else {
      var es := SomeFinish(s, u);
      assert Produced(s, es);
    }
  }

  lemma SomeFinish(s: Sys, u: Text) returns (es: seq<Event>)
    requires UnderWay(s, u) && (s.uris[u].block == [] || !Doomed(s))
    ensures Produced(s, es) && Run(s, es) && u !in Exec(s, es).uris
  {
    var rs := s.uris[u];
    if rs.owner == [] {
      assert EntryOk(u, rs, DoneOf(s.done, u), s.said);
      assert forall r | r in rs.syncing :: r.peer in rs.owner;
      es := FinishAnnounced(s, u);
    } else {
      es := CanFinish(s, u, v => Zeros(rs.size));
    }
  }

  /** The same of every reachable state in which a file that is not empty is tracked. */
  lemma ReachableCanFinishIff(disk: map<Text, seq<byte>>, before: seq<Event>, u: Text)
    requires Run(Init(disk), before) && Tracked(Exec(Init(disk), before), u)
    requires Exec(Init(disk), before).uris[u].size > 0
    ensures var s := Exec(Init(disk), before);
            && (s.uris[u].block == [] || !Doomed(s) ==>
                  exists es :: Produced(s, es) && Run(s, es) && u !in Exec(s, es).uris)
            && (s.uris[u].block != [] && Doomed(s) ==> forall es | Run(s, es) :: u in Exec(s, es).uris)
  {
    RunOk(Init(disk), before);
    CanFinishIff(Exec(Init(disk), before), u);
  }

  // The copy of the owners.

  lemma OwnersDoNotGrow(s: Sys, e: Event, v: Text)
    requires Enabled(s, e) && !OfWorker(e) && NotAnnouncing(e, v)
    ensures Next(s, e).worker == s.worker
    ensures |At(Next(s, e).uris, v, 0).owner| <= |At(s.uris, v, 0).owner|
  {
  }

  predicate NotAnnouncing(e: Event, v: Text) { e.Announce? ==> e.uri != v }

  /**
   * When nobody announces the file between the copy and the count, the count is not larger than the copy, so
   * every index the worker can draw is in range.
   */
  lemma {:induction false} CopyHolds(s: Sys, es: seq<Event>, junk: u64)
    requires s.worker.Copied? && |At(s.uris, s.worker.uri, 0).owner| <= |s.worker.owners|
    requires Run(s, es) && forall e | e in es :: !OfWorker(e) && NotAnnouncing(e, s.worker.uri)
    ensures Exec(s, es).worker == s.worker
    ensures var w := Next(Exec(s, es), CountOwners(junk)).worker;
            w.Idle? || (w.Counted? && w.owners == s.worker.owners && w.n <= |w.owners|)
    decreases |es|
  {
    if es != [] {
      assert es[0] in es;
      OwnersDoNotGrow(s, es[0], s.worker.uri);
      CopyHolds(Next(s, es[0]), es[1..], junk);
    }
  }

  /** A file is announced for the first time. */
  lemma FirstAnnounced(p: NetAddr, u: Text, hash: Text, size: u64) returns (es: seq<Event>)
    requires u != [] && size > 0
    ensures Run(Init(map[]), es) && Produced(Init(map[]), es)
    ensures var t := Exec(Init(map[]), es);
            && t.worker.Idle? && t.loop.Waiting? && t.tasks == [u]
            && t.uris == map[u := Fresh(u, size, hash, p)] && Askable(t, u)
  {
    CutNotEmpty(size);
    es := OnlyFileAnnounced(Init(map[]), Announce(p, u, hash, size));
    var rs := Exec(Init(map[]), es).uris[u];
    assert LastOpen(rs) in Cut(size);
    BlockFits(size, LastOpen(rs));
  }

  /** One further announcement is enough to bring an index out of range. */
  lemma CopyOutdated(p: NetAddr, q: NetAddr, u: Text, hash: Text, size: u64) returns (es: seq<Event>)
    requires u != [] && size > 0 && p != q
    ensures Run(Init(map[]), es) && Produced(Init(map[]), es)
    ensures Exec(Init(map[]), es).worker == Cleared(u, [p], 2)
  {
    var s := Init(map[]);
    var first := FirstAnnounced(p, u, hash, size);
    var t := Exec(s, first);
    TaskRuns(t, u);
    WorkerProduces(t, TaskEvents());
    ProducedThen(s, first, TaskEvents());
    var second := OneMoreOwner(Exec(t, TaskEvents()), p, q, u, hash, size);
    ProducedThen(s, first + TaskEvents(), second);
    es := first + TaskEvents() + second;
  }

  lemma OneMoreOwner(s: Sys, p: NetAddr, q: NetAddr, u: Text, hash: Text, size: u64) returns (es: seq<Event>)
    requires s.worker == Copied(u, [p]) && s.loop.Waiting? && u != [] && p != q
    requires s.uris == map[u := Fresh(u, size, hash, p)]
    ensures Run(s, es) && Produced(s, es) && Exec(s, es).worker == Cleared(u, [p], 2)
  {
    CutNotEmpty(size);
    var second := OnlyFileAnnounced(s, Announce(q, u, hash, size));
    var t := Exec(s, second);
    assert t.uris[u].owner == [p, q];
    CountsTwo(t, p, q, u);
    ProducedThen(s, second, LookEvents());
    es := second + LookEvents();
  }

  lemma CountsTwo(s: Sys, p: NetAddr, q: NetAddr, u: Text)
    requires s.worker == Copied(u, [p]) && u in s.uris && s.uris[u].owner == [p, q]
    requires s.uris[u].block != [] && s.uris[u].syncing == []
    ensures Run(s, LookEvents()) && Produced(s, LookEvents()) && Exec(s, LookEvents()).worker == Cleared(u, [p], 2)
  {
    assert Touch(s.uris, u, 0) == s.uris;
    RunTwo(s, CountOwners(0), CountBlocks(0));
    RunOne(s, [CountOwners(0), CountBlocks(0)], CountSyncing(0));
    assert [CountOwners(0), CountBlocks(0)] + [CountSyncing(0)] == LookEvents();
    WorkerProduces(s, LookEvents());
  }

  /**
   * And when the copy was empty, because the only owner had just failed, its return dooms the worker: from then
   * on no run finishes the file.
   */
  lemma ReturnDooms(p: NetAddr, u: Text, hash: Text, size: u64) returns (es: seq<Event>)
    requires u != [] && size > 0
    ensures Run(Init(map[]), es) && Produced(Init(map[]), es)
    ensures Doomed(Exec(Init(map[]), es)) && Alive(Exec(Init(map[]), es), u)
    ensures forall more | Run(Exec(Init(map[]), es), more) :: u in Exec(Exec(Init(map[]), es), more).uris
  {
    var s := Init(map[]);
    var failed := SendFails(p, u, hash, size);
    var doomed := Returns(Exec(s, failed), p, u, hash, size);
    ProducedThen(s, failed, doomed);
    es := failed + doomed;
    var t := Exec(s, es);
    RunOk(s, es);
    forall more | Run(t, more) ensures u in Exec(t, more).uris {
      DoomedForGood(t, more, u);
    }
  }

  /** The only owner comes back just after the worker has copied the empty list. */
  lemma Returns(s: Sys, p: NetAddr, u: Text, hash: Text, size: u64) returns (es: seq<Event>)
    requires s.worker.Idle? && s.loop.Waiting? && s.tasks == [] && u != [] && size > 0
    requires s.uris == map[u := Fresh(u, size, hash, p).(owner := [])]
    ensures Run(s, es) && Produced(s, es) && Doomed(Exec(s, es))
    ensures Exec(s, es).uris == map[u := Fresh(u, size, hash, p)]
  {
    CutNotEmpty(size);
    OnlyFileRefreshed(s, u);
    var t := s.(tasks := [u]);
    assert Exec(s, AddsFor(s, u)) == t;
    EmptyCopied(t, u);
    ProducedThen(s, AddsFor(s, u), TaskEvents());
    var again := AnnouncedAgain(Exec(t, TaskEvents()), p, u, hash, size);
    ProducedThen(s, AddsFor(s, u) + TaskEvents(), again);
    es := AddsFor(s, u) + TaskEvents() + again;
  }

  lemma AnnouncedAgain(s: Sys, p: NetAddr, u: Text, hash: Text, size: u64) returns (es: seq<Event>)
    requires s.worker == Copied(u, []) && s.loop.Waiting? && u != [] && size > 0
    requires s.uris == map[u := Fresh(u, size, hash, p).(owner := [])]
    ensures Run(s, es) && Produced(s, es) && Doomed(Exec(s, es))
    ensures Exec(s, es).uris == map[u := Fresh(u, size, hash, p)]
  {
    CutNotEmpty(size);
    es := OnlyFileAnnounced(s, Announce(p, u, hash, size));
    var rs := Fresh(u, size, hash, p);
    assert [] + [p] == [p] && rs.(owner := []).(owner := [p]) == rs;
    assert map[u := rs.(owner := [])][u := rs] == map[u := rs];
  }

  lemma EmptyCopied(s: Sys, u: Text)
    requires s.worker.Idle? && s.tasks == [u] && u in s.uris && s.uris[u].owner == []
    ensures Run(s, TaskEvents()) && Produced(s, TaskEvents())
    ensures Exec(s, TaskEvents()) == s.(worker := Copied(u, []), tasks := [])
  {
    assert Touch(s.uris, u, 0) == s.uris && s.tasks[1..] == [];
    RunTwo(s, TakeTask, CopyOwners(0));
    WorkerProduces(s, TaskEvents());
  }

  /** The only owner of a new file is asked for a block, and the request cannot be sent. */
  lemma SendFails(p: NetAddr, u: Text, hash: Text, size: u64) returns (es: seq<Event>)
    requires u != [] && size > 0
    ensures Run(Init(map[]), es) && Produced(Init(map[]), es)
    ensures var t := Exec(Init(map[]), es);
            && t.worker.Idle? && t.loop.Waiting? && t.tasks == []
            && t.uris == map[u := Fresh(u, size, hash, p).(owner := [])]
  {
    var s := Init(map[]);
    var first := FirstAnnounced(p, u, hash, size);
    var t := Exec(s, first);
    AskFails(t, p, u);
    ProducedThen(s, first, TaskEvents() + LookEvents() + FailEvents());
    es := first + (TaskEvents() + LookEvents() + FailEvents());
  }

  lemma AskFails(s: Sys, p: NetAddr, u: Text)
    requires Askable(s, u) && s.worker.Idle? && s.tasks == [u] && s.uris[u].owner == [p] && s.uris[u].syncing == []
    ensures var es := TaskEvents() + LookEvents() + FailEvents();
            && Run(s, es) && Produced(s, es)
            && Exec(s, es) == s.(tasks := [], uris := s.uris[u := s.uris[u].(owner := [])])
  {
    var t := s.(worker := Copied(u, [p]), tasks := []);
    TaskRuns(s, u);
    assert s.tasks[1..] == [];
    LookRuns(t, u);
    RunThen(s, TaskEvents(), LookEvents());
    FailRuns(t.(worker := Cleared(u, [p], 1)), p, u);
    RunThen(s, TaskEvents() + LookEvents(), FailEvents());
    FailIsOfWorker();
    WorkerProduces(s, TaskEvents() + LookEvents() + FailEvents());
  }

  function FailEvents(): seq<Event> { [Choose(0, 0), Allot(0), SendFailed(0)] }

  lemma FailIsOfWorker()
    ensures forall e | e in TaskEvents() + LookEvents() + FailEvents() :: OfWorker(e)
  {
    assert forall e | e in TaskEvents() :: OfWorker(e);
    assert forall e | e in LookEvents() :: OfWorker(e);
    assert forall e | e in FailEvents() :: OfWorker(e);
  }

  /** The block that was given out comes straight back to its place. */
  lemma FailRuns(s: Sys, p: NetAddr, u: Text)
    requires Askable(s, u) && s.worker == Cleared(u, [p], 1) && s.uris[u].owner == [p] && s.uris[u].syncing == []
    ensures Run(s, FailEvents())
    ensures Exec(s, FailEvents()) == s.(worker := Idle, uris := s.uris[u := s.uris[u].(owner := [])])
  {
    var rs := s.uris[u];
    AllotRuns(s, u);
    GivenBack(rs, p);
    var given := s.(worker := Sending(u, p, LastOpen(rs)), uris := s.uris[u := Assigned(rs, p).0]);
    assert given.uris[u := rs.(owner := [])] == s.uris[u := rs.(owner := [])];
    RunOne(s, [Choose(0, 0), Allot(0)], SendFailed(0));
    assert [Choose(0, 0), Allot(0)] + [SendFailed(0)] == FailEvents();
  }

  lemma GivenBack(rs: SyncRs, p: NetAddr)
    requires rs.owner == [p] && rs.syncing == [] && rs.block != []
    ensures GaveBackAll(Assigned(rs, p).0, p) == rs.(owner := [])
  {
    var b := LastOpen(rs);
    var flying, none, nobody := [SyncingRange(p, b)], rs.syncing[..0], rs.owner[..0];
    assert Assigned(rs, p).0.syncing == flying && flying[..0] == none == [] && nobody == [];
    assert BlocksWith(flying, p) == [b] + BlocksWith(none, p) == [b];
    assert NotWith(flying, p) == NotWith(none, p) + [] == [];
    assert Without(rs.owner, p) == Without(nobody, p) + [] == [];
    assert rs.block[..|rs.block| - 1] + [b] == rs.block;
  }
}
