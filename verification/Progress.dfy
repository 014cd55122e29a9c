// Runs that get somewhere: a block asked for, a reply taken in, and an undisturbed download to its end.
module Progress {
  import opened Octets
  import opened Blocks
  import opened Allocator
  import opened FileIo
  import opened Machine
  import opened Handlers
  import Tasks

  /** The block that is assigned next. */
  function LastOpen(rs: SyncRs): Block
    requires rs.block != []
  {
    rs.block[|rs.block| - 1]
  }

  /** Another block of the file can be asked for. */
  predicate Askable(s: Sys, u: Text) {
    && u in s.uris && s.uris[u].owner != [] && s.uris[u].block != []
    && LastOpen(s.uris[u]).end != 0 && |s.uris[u].syncing| < DOWNLOAD_LIMIT
  }

  /** The worker takes its first task, finds that it may go on, and asks the first owner for a block. */
  function AskEvents(): seq<Event> { TaskEvents() + LookEvents() + SendEvents() }

  function TaskEvents(): seq<Event> { [TakeTask, CopyOwners(0)] }

  function LookEvents(): seq<Event> { [CountOwners(0), CountBlocks(0), CountSyncing(0)] }

  function SendEvents(): seq<Event> { [Choose(0, 0), Allot(0), Sent] }

  lemma TaskRuns(s: Sys, u: Text)
    requires Askable(s, u) && s.worker.Idle? && s.tasks != [] && s.tasks[0] == u
    ensures Run(s, TaskEvents())
    ensures Exec(s, TaskEvents()) == s.(worker := Copied(u, s.uris[u].owner), tasks := s.tasks[1..])
  {
    assert Touch(s.uris, u, 0) == s.uris;
    RunTwo(s, TakeTask, CopyOwners(0));
  }

  lemma LookRuns(s: Sys, u: Text)
    requires Askable(s, u) && s.worker == Copied(u, s.uris[u].owner)
    ensures var owner := s.uris[u].owner;
            Run(s, LookEvents()) && Exec(s, LookEvents()) == s.(worker := Cleared(u, owner, |owner|))
  {
    var es, owner := LookEvents(), s.uris[u].owner;
    assert Touch(s.uris, u, 0) == s.uris;
    RunTwo(s, CountOwners(0), CountBlocks(0));
    RunOne(s, [CountOwners(0), CountBlocks(0)], CountSyncing(0));
    assert [CountOwners(0), CountBlocks(0)] + [CountSyncing(0)] == es;
  }

  lemma AllotRuns(s: Sys, u: Text)
    requires Askable(s, u) && s.worker == Cleared(u, s.uris[u].owner, |s.uris[u].owner|)
    ensures var rs, es := s.uris[u], [Choose(0, 0), Allot(0)];
            && Run(s, es)
            && Exec(s, es) == s.(worker := Sending(u, rs.owner[0], LastOpen(rs)),
                                 uris := s.uris[u := Assigned(rs, rs.owner[0]).0])
  {
    assert Touch(s.uris, u, 0) == s.uris;
    assert s.uris[u].owner[0] in s.uris[u].owner;
    RunTwo(s, Choose(0, 0), Allot(0));
  }

  lemma SendRuns(s: Sys, u: Text)
    requires Askable(s, u) && s.worker == Cleared(u, s.uris[u].owner, |s.uris[u].owner|)
    ensures var rs := s.uris[u];
            && Run(s, SendEvents())
            && Exec(s, SendEvents()) == s.(worker := Idle, uris := s.uris[u := Assigned(rs, rs.owner[0]).0])
  {
    AllotRuns(s, u);
    RunOne(s, [Choose(0, 0), Allot(0)], Sent);
    assert [Choose(0, 0), Allot(0)] + [Sent] == SendEvents();
  }

  /** One block goes from the open ones to the first owner. */
  lemma AskRuns(s: Sys, u: Text)
    requires Askable(s, u) && s.worker.Idle? && s.tasks != [] && s.tasks[0] == u
    ensures var rs := s.uris[u];
            && Run(s, AskEvents()) && Produced(s, AskEvents())
            && Exec(s, AskEvents()) == s.(tasks := s.tasks[1..], uris := s.uris[u := Assigned(rs, rs.owner[0]).0])
  {
    var owner := s.uris[u].owner;
    var t := s.(worker := Copied(u, owner), tasks := s.tasks[1..]);
    TaskRuns(s, u);
    LookRuns(t, u);
    RunThen(s, TaskEvents(), LookEvents());
    SendRuns(t.(worker := Cleared(u, owner, |owner|)), u);
    RunThen(s, TaskEvents() + LookEvents(), SendEvents());
    AskIsOfWorker();
    WorkerProduces(s, AskEvents());
  }

  lemma AskIsOfWorker()
    ensures forall e | e in AskEvents() :: OfWorker(e)
  {
    assert forall e | e in TaskEvents() :: OfWorker(e);
    assert forall e | e in LookEvents() :: OfWorker(e);
    assert forall e | e in SendEvents() :: OfWorker(e);
  }

  /** A reply is saved, and the range it answers completed. */
  function AnswerEvents(p: NetAddr, u: Text, b: Block, data: seq<byte>): seq<Event> {
    [Save(p, u, b.start, data, Opened([])), Complete(0)]
  }

  /** The state after that. */
  function Taken(s: Sys, p: NetAddr, u: Text, b: Block, data: seq<byte>): Sys {
    s.(uris := Finish(s.uris, p, u, b, 0),
       disk := s.disk[u := Overlay(FileOf(s.disk, u), b.start, data)],
       done := DoneAfter(s.uris, s.done, p, u, b, 0))
  }

  lemma AnswerRuns(s: Sys, p: NetAddr, u: Text, b: Block, data: seq<byte>)
    requires s.loop.Waiting? && u != [] && b.start + |data| == b.end < TWO_63 && |data| <= ONCE_MAX
    ensures Run(s, AnswerEvents(p, u, b, data)) && Exec(s, AnswerEvents(p, u, b, data)) == Taken(s, p, u, b, data)
  {
    var save := Save(p, u, b.start, data, Opened([]));
    OnePassWrites(FileOf(s.disk, u), b.start, data, []);
    var s1 := Next(s, save);
    assert s1 == s.(disk := s.disk[u := Overlay(FileOf(s.disk, u), b.start, data)], loop := Saved(p, u, b));
    assert Next(s1, Complete(0)) == Taken(s, p, u, b, data);
    RunTwo(s, save, Complete(0));
  }

  /** And the sweep after it. */
  lemma AnswerProduces(s: Sys, p: NetAddr, u: Text, b: Block, data: seq<byte>, adds: seq<Event>)
    requires s.loop.Waiting? && u != [] && b.start + |data| == b.end < TWO_63 && |data| <= ONCE_MAX
    requires var t := Taken(s, p, u, b, data); Sweeps(t, adds) && Run(t, adds)
    ensures var es := AnswerEvents(p, u, b, data) + adds;
            Produced(s, es) && Run(s, es) && Exec(s, es) == Exec(Taken(s, p, u, b, data), adds)
  {
    AnswerRuns(s, p, u, b, data);
    ReplyProduces(s, Save(p, u, b.start, data, Opened([])), Complete(0), adds);
  }

  // States with one file.

  predicate OnlyFile(s: Sys, u: Text) { forall v | v in s.uris :: v == u }

  /** The queue after a sweep. */
  function SweptTasks(s: Sys, u: Text): seq<Text> { if HasRoom(s, u) then Tasks.Enqueue(s.tasks, u) else s.tasks }

  /** An announcement and its sweep. */
  lemma OnlyFileAnnounced(s: Sys, e: Event) returns (es: seq<Event>)
    requires s.loop.Waiting? && e.Announce? && Enabled(s, e) && OnlyFile(s, e.uri)
    ensures es == [e] + AddsFor(Next(s, e), e.uri)
    ensures Produced(s, es) && Run(s, es)
    ensures Exec(s, es) == Next(s, e).(tasks := SweptTasks(Next(s, e), e.uri))
  {
    OnlyFileSwept(Next(s, e), e.uri);
    AnnouncementProduces(s, e, AddsFor(Next(s, e), e.uri));
    es := [e] + AddsFor(Next(s, e), e.uri);
  }

  /** A reply and its sweep. */
  lemma OnlyFileAnswered(s: Sys, p: NetAddr, u: Text, b: Block, data: seq<byte>) returns (es: seq<Event>)
    requires s.loop.Waiting? && u != [] && OnlyFile(s, u)
    requires b.start + |data| == b.end < TWO_63 && |data| <= ONCE_MAX
    ensures es == AnswerEvents(p, u, b, data) + AddsFor(Taken(s, p, u, b, data), u)
    ensures Produced(s, es) && Run(s, es)
    ensures var t := Taken(s, p, u, b, data); Exec(s, es) == t.(tasks := SweptTasks(t, u))
  {
    var t := Taken(s, p, u, b, data);
    OnlyFileSwept(t, u);
    AnswerProduces(s, p, u, b, data, AddsFor(t, u));
    es := AnswerEvents(p, u, b, data) + AddsFor(t, u);
  }

  /** A table without news, and its sweep. */
  lemma OnlyFileRefreshed(s: Sys, u: Text)
    requires s.loop.Waiting? && OnlyFile(s, u)
    ensures Produced(s, AddsFor(s, u)) && Run(s, AddsFor(s, u))
    ensures Exec(s, AddsFor(s, u)) == s.(tasks := SweptTasks(s, u))
  {
    OnlyFileSwept(s, u);
    SweepProduces(s, AddsFor(s, u));
  }

  // A download that nothing disturbs.

  /** p is the only owner of the only file, some of its blocks are open, and a task for it is pending. */
  predicate Ready(s: Sys, p: NetAddr, u: Text) {
    && s.loop.Waiting? && s.worker.Idle? && s.tasks == [u] && u != [] && OnlyFile(s, u) && u in s.uris
    && s.uris[u].owner == [p] && s.uris[u].block != [] && s.uris[u].syncing == []
  }

  /** The state once the next block has been asked for, and once it has been fetched. */
  function Given(s: Sys, p: NetAddr, u: Text): Sys
    requires u in s.uris
  {
    s.(tasks := [], uris := s.uris[u := Assigned(s.uris[u], p).0])
  }

  function Fetched(s: Sys, p: NetAddr, u: Text, data: seq<byte>): Sys
    requires Ready(s, p, u)
  {
    var t := Taken(Given(s, p, u), p, u, LastOpen(s.uris[u]), data);
    t.(tasks := SweptTasks(t, u))
  }

  lemma GivenRuns(s: Sys, p: NetAddr, u: Text)
    requires Ready(s, p, u) && LastOpen(s.uris[u]).end != 0
    ensures Run(s, AskEvents()) && Produced(s, AskEvents()) && Exec(s, AskEvents()) == Given(s, p, u)
  {
    AskRuns(s, u);
    assert s.tasks[1..] == [];
  }

  /** One block from the first look to the completion. */
  lemma RoundRuns(s: Sys, p: NetAddr, u: Text, data: seq<byte>) returns (es: seq<Event>)
    requires Ready(s, p, u)
    requires var b := LastOpen(s.uris[u]); b.start < b.end < TWO_63 && |data| == b.end - b.start <= ONCE_MAX
    ensures Run(s, es) && Produced(s, es) && Exec(s, es) == Fetched(s, p, u, data)
  {
    GivenRuns(s, p, u);
    var answered := OnlyFileAnswered(Given(s, p, u), p, u, LastOpen(s.uris[u]), data);
    ProducedThen(s, AskEvents(), answered);
    es := AskEvents() + answered;
  }

  lemma OnlyRangeDone(m: Files, p: NetAddr, u: Text, b: Block)
    requires u in m && m[u].syncing == [SyncingRange(p, b)]
    ensures Finish(m, p, u, b, 0) == if m[u].block == [] then m - {u} else m[u := m[u].(syncing := [])]
  {
    assert RemoveAt([SyncingRange(p, b)], 0) == [];
  }

  /** The file has lost its last open block, and is gone when that was the only one. */
  lemma FetchedFile(s: Sys, p: NetAddr, u: Text, data: seq<byte>)
    requires Ready(s, p, u)
    ensures var rs, t := s.uris[u], Fetched(s, p, u, data);
            var left := rs.block[..|rs.block| - 1];
            && FileOf(t.disk, u) == Overlay(FileOf(s.disk, u), LastOpen(rs).start, data)
            && (left == [] ==> u !in t.uris)
            && (left != [] ==> Ready(t, p, u) && t.uris[u] == rs.(block := left))
  {
    var rs, b, m := s.uris[u], LastOpen(s.uris[u]), Given(s, p, u).uris;
    assert m[u] == rs.(block := rs.block[..|rs.block| - 1], syncing := [SyncingRange(p, b)]);
    OnlyRangeDone(m, p, u, b);
  }

  /** The first k blocks are open; the ones behind them are on disk. */
  ghost predicate Downloading(s: Sys, p: NetAddr, u: Text, content: seq<byte>, k: nat) {
    && |content| < TWO_63 && Ready(s, p, u)
    && s.uris[u].size == |content|
    && k <= |Cut(|content|)| && s.uris[u].block == Cut(|content|)[..k]
    && TailOnDisk(FileOf(s.disk, u), content, k)
  }

  /** The blocks from k on are in the file. */
  ghost predicate TailOnDisk(f: seq<byte>, content: seq<byte>, k: nat)
    requires |content| < TWO_63 && k <= |Cut(|content|)|
  {
    var bs := Cut(|content|);
    if k == |bs| then f == []
    else |f| == Reach(|content|) && HoldsRange(f, content, bs[k].start, Reach(|content|))
  }

  /** A range that is held gives each byte of it, and its bytes give the range. */
  lemma HeldByte(f: seq<byte>, src: seq<byte>, from: nat, to: nat, i: nat)
    requires HoldsRange(f, src, from, to) && from <= i < to
    ensures f[i] == src[i]
  {
    assert f[from..to][i - from] == src[from..to][i - from];
  }

  lemma HeldFromBytes(f: seq<byte>, src: seq<byte>, from: nat, to: nat)
    requires from <= to <= |src| && to <= |f| && forall i | from <= i < to :: f[i] == src[i]
    ensures HoldsRange(f, src, from, to)
  {
  }

  /** A piece saved right before what is on disk. */
  lemma SavedBefore(f: seq<byte>, src: seq<byte>, start: nat, mid: nat, end: nat)
    requires start < mid <= end <= |src|
    requires if mid == end then f == [] || |f| == end else |f| == end && HoldsRange(f, src, mid, end)
    ensures var g := Overlay(f, start, src[start..mid]); |g| == end && HoldsRange(g, src, start, end)
  {
    var g := Overlay(f, start, src[start..mid]);
    OverlayBytes(f, start, src[start..mid]);
    forall i | start <= i < end ensures g[i] == src[i] {
      if i < mid {
        assert g[i] == src[start..mid][i - start];
      } else {
        HeldByte(f, src, mid, end, i);
      }
    }
    HeldFromBytes(g, src, start, end);
  }

  lemma TailGrows(f: seq<byte>, content: seq<byte>, k: nat)
    requires 0 < |content| < TWO_63 && 0 < k <= |Cut(|content|)| && TailOnDisk(f, content, k)
    ensures var b := Cut(|content|)[k - 1];
            && b.start <= b.end <= |content| && b.end - b.start <= BLOCK_SIZE
            && TailOnDisk(Overlay(f, b.start, content[b.start..b.end]), content, k - 1)
  {
    var b := Cut(|content|)[k - 1];
    BlockShape(|content|, k - 1);
    CutTiles(|content|, k - 1);
    SavedBefore(f, content, b.start, b.end, Reach(|content|));
  }

  lemma {:induction false} DownloadRuns(s: Sys, p: NetAddr, u: Text, content: seq<byte>, k: nat)
    returns (es: seq<Event>)
    requires content != [] && Downloading(s, p, u, content, k)
    ensures Run(s, es) && Produced(s, es) && u !in Exec(s, es).uris
    ensures FileOf(Exec(s, es).disk, u) == content[..Reach(|content|)]
    decreases k
  {
    var b := LastOpen(s.uris[u]);
    assert b == Cut(|content|)[k - 1];
    BlockShape(|content|, k - 1);
    var data := content[b.start..b.end];
    TailGrows(FileOf(s.disk, u), content, k);
    es := RoundRuns(s, p, u, data);
    FetchedFile(s, p, u, data);
    var t := Fetched(s, p, u, data);
    assert Cut(|content|)[..k][..k - 1] == Cut(|content|)[..k - 1];
    if k == 1 {
      CutTiles(|content|, 0);
    } else {
      var more := DownloadRuns(t, p, u, content, k - 1);
      ProducedThen(s, es, more);
      es := es + more;
    }
  }

  /**
   * For every file that is not empty there is a run that ends with the file dropped as complete and exactly
   * the bytes on disk that its blocks reach, so the copy is right if and only if the blocks cover the file.
   */
  lemma HonestDownload(p: NetAddr, u: Text, hash: Text, content: seq<byte>) returns (es: seq<Event>)
    requires u != [] && 0 < |content| < TWO_63
    ensures Run(Init(map[]), es) && Produced(Init(map[]), es) && es != [] && es[0] == Announce(p, u, hash, |content|)
    ensures u !in Exec(Init(map[]), es).uris
    ensures FileOf(Exec(Init(map[]), es).disk, u) == content[..Reach(|content|)]
    ensures FileOf(Exec(Init(map[]), es).disk, u) == content <==> WholeFileCut(|content|)
  {
    var s, e := Init(map[]), Announce(p, u, hash, |content|);
    var bs := Cut(|content|);
    CutNotEmpty(|content|);
    assert bs[..|bs|] == bs;
    es := OnlyFileAnnounced(s, e);
    var more := DownloadRuns(Exec(s, es), p, u, content, |bs|);
    ProducedThen(s, es, more);
    es := es + more;
  }

  /** A file of 4 GiB is dropped as complete with 1 MiB of it on disk. */
  lemma FourGiBCompletesAtOneMiB(p: NetAddr, u: Text, hash: Text, content: seq<byte>) returns (es: seq<Event>)
    requires u != [] && |content| == TWO_32
    ensures Run(Init(map[]), es) && Produced(Init(map[]), es) && es != [] && es[0] == Announce(p, u, hash, TWO_32)
    ensures u !in Exec(Init(map[]), es).uris
    ensures FileOf(Exec(Init(map[]), es).disk, u) == content[..BLOCK_SIZE]
  {
    es := HonestDownload(p, u, hash, content);
    FourGiBIsCutToOne();
  }
}
