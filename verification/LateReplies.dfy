// Replies are saved before their ranges are looked up. What that does to a file, byte by byte.
module LateReplies {
  import opened Octets
  import opened Blocks
  import opened Allocator
  import opened Announcements
  import opened FileIo
  import opened Machine
  import opened Handlers
  import opened Downloads
  import opened Accounting
  import opened Progress

  // The byte on disk is the one that was saved last.

  /** The event writes a byte at offset o of the file. */
  predicate Covers(e: Event, u: Text, o: nat) {
    e.Save? && e.uri == u && e.io.Opened? && e.start <= o < e.start + |e.data|
  }

  function ByteSaved(e: Event, u: Text, o: nat): byte
    requires Covers(e, u, o)
  {
    Carried(e.data, e.io.answers, o - e.start)
  }

  /** A save that needs one full pass carries every byte of its data to its own place. */
  lemma ByteSavedAtOnce(e: Event, u: Text, o: nat)
    requires Covers(e, u, o) && WrittenAtOnce(e)
    ensures ByteSaved(e, u, o) == e.data[o - e.start]
  {
    OnePassCarries(e.data, e.io.answers, o - e.start);
  }

  /** The last event that writes a byte there, or -1. */
  function LastSave(es: seq<Event>, u: Text, o: nat): (i: int)
    ensures -1 <= i < |es|
    ensures i >= 0 ==> Covers(es[i], u, o)
    ensures forall j | i < j < |es| :: !Covers(es[j], u, o)
    decreases |es|
  {
    if es == [] then -1
    else
      var n := |es| - 1;
      if Covers(es[n], u, o) then n
      else
        var i := LastSave(es[..n], u, o);
        assert forall j | i < j < n :: es[..n][j] == es[j];
        i
  }

  /** Offset o of a file is as it was; a hole that opened there reads zero. */
  predicate SameByte(f: seq<byte>, g: seq<byte>, o: nat) {
    if o < |f| then o < |g| && g[o] == f[o] else o < |g| ==> g[o] == 0
  }

  /** Only a save touches a file. */
  lemma SaveStores(s: Sys, e: Event, u: Text)
    requires Enabled(s, e)
    ensures FileOf(Next(s, e).disk, u)
         == if e.Save? && e.uri == u then Stored(FileOf(s.disk, u), e.start, e.data, e.io) else FileOf(s.disk, u)
  {
  }

  lemma SaveByte(s: Sys, e: Event, u: Text, o: nat)
    requires Enabled(s, e)
    ensures var f, g := FileOf(s.disk, u), FileOf(Next(s, e).disk, u);
            if Covers(e, u, o) then o < |g| && g[o] == ByteSaved(e, u, o) else SameByte(f, g, o)
  {
    SaveStores(s, e, u);
    if e.Save? && e.uri == u {
      StoredByte(FileOf(s.disk, u), e, u, o);
    }
  }

  lemma StoredByte(f: seq<byte>, e: Event, u: Text, o: nat)
    requires e.Save? && e.uri == u
    ensures var g := Stored(f, e.start, e.data, e.io);
            if Covers(e, u, o) then o < |g| && g[o] == ByteSaved(e, u, o) else SameByte(f, g, o)
  {
    if e.io.Opened? {
      StoredBytes(f, e.start, e.data, e.io.answers, o);
    }
  }

  /** For every run, with any short writes: the byte at an offset is the one the last save carried there. */
  lemma {:induction false} LastSaveDecides(s: Sys, es: seq<Event>, u: Text, o: nat)
    requires Run(s, es)
    ensures var i, f, g := LastSave(es, u, o), FileOf(s.disk, u), FileOf(Exec(s, es).disk, u);
            if i >= 0 then o < |g| && g[o] == ByteSaved(es[i], u, o) else SameByte(f, g, o)
    decreases |es|
  {
    if es != [] {
      var init, last := es[..|es| - 1], es[|es| - 1];
      ExecLast(s, es);
      LastSaveDecides(s, init, u, o);
      SaveByte(Exec(s, init), last, u, o);
    }
  }

  // Every finished block was saved.

  /** A save of exactly this block. */
  predicate SavesBlock(e: Event, u: Text, b: Block) {
    e.Save? && e.uri == u && e.start == b.start && e.start + |e.data| == b.end
  }

  ghost predicate WasSaved(s: Sys, es: seq<Event>, u: Text, b: Block) {
    b in DoneOf(s.done, u) || (s.loop.Saved? && s.loop.uri == u && s.loop.block == b)
      || exists e :: e in es && SavesBlock(e, u, b)
  }

  lemma FinishedStep(s: Sys, e: Event, u: Text, b: Block)
    requires Enabled(s, e) && WasSaved(Next(s, e), [], u, b)
    ensures WasSaved(s, [e], u, b)
  {
    if SavesBlock(e, u, b) {
      assert e in [e];
    }
  }

  lemma {:induction false} FinishedWasSaved(s: Sys, es: seq<Event>, u: Text, b: Block)
    requires Run(s, es) && WasSaved(Exec(s, es), [], u, b)
    ensures WasSaved(s, es, u, b)
    decreases |es|
  {
    if es != [] {
      var t := Next(s, es[0]);
      FinishedWasSaved(t, es[1..], u, b);
      if WasSaved(t, [], u, b) {
        FinishedStep(s, es[0], u, b);
        if e :| e in [es[0]] && SavesBlock(e, u, b) {
          assert e in es;
        }
      } else {
        var e :| e in es[1..] && SavesBlock(e, u, b);
        assert e in es;
      }
    }
  }

  /** Every save of the file found it open. */
  ghost predicate AllOpened(es: seq<Event>, u: Text) {
    forall e | e in es :: e.Save? && e.uri == u ==> e.io.Opened?
  }

  /**
   * Whatever the replies carried: when a file is dropped as complete, a byte its blocks reach is right if and
   * only if the last save that covered it carried the right byte. There was such a save, unless the file did
   * not open.
   */
  lemma DroppedByteRightIff(disk: map<Text, seq<byte>>, es: seq<Event>, e: Event, u: Text, content: seq<byte>, o: nat)
    requires Run(Init(disk), es) && Enabled(Exec(Init(disk), es), e)
    requires Tracked(Exec(Init(disk), es), u) && !Tracked(Next(Exec(Init(disk), es), e), u)
    requires o < Reach(Exec(Init(disk), es).uris[u].size) && o < |content|
    ensures var i, g := LastSave(es, u, o), FileOf(Next(Exec(Init(disk), es), e).disk, u);
            && (AllOpened(es, u) ==> i >= 0)
            && (i >= 0 ==> (ByteRight(g, content, o) <==> ByteSaved(es[i], u, o) == content[o]))
            && (i < 0 ==> SameByte(FileOf(disk, u), g, o))
  {
    var s := Exec(Init(disk), es);
    RunOk(Init(disk), es);
    OnlyCompletionDrops(s, e, u);
    LastSaveDecides(Init(disk), es, u, o);
    if AllOpened(es, u) {
      var b := BlockAt(s.uris[u].size, o);
      DroppedIsDone(s, e, u);
      assert b in multiset(DoneOf(Next(s, e).done, u));
      DroppedWasSaved(disk, es, e, u, b, o);
    }
  }

  /** The block that the last completion finishes was saved before it as well. */
  lemma DroppedWasSaved(disk: map<Text, seq<byte>>, es: seq<Event>, e: Event, u: Text, b: Block, o: nat)
    requires Run(Init(disk), es) && Enabled(Exec(Init(disk), es), e) && AllOpened(es, u) && e.Complete?
    requires b in DoneOf(Next(Exec(Init(disk), es), e).done, u) && Contains(b, o)
    ensures LastSave(es, u, o) >= 0
  {
    FinishedStep(Exec(Init(disk), es), e, u, b);
    if x :| x in [e] && SavesBlock(x, u, b) {
      assert false;
    }
    FinishedWasSaved(Init(disk), es, u, b);
    var x :| x in es && SavesBlock(x, u, b);
    var j :| 0 <= j < |es| && es[j] == x;
    assert Covers(es[j], u, o);
  }

  /** The last saves carried this content. */
  ghost predicate LastSavesCarry(es: seq<Event>, u: Text, content: seq<byte>) {
    forall o | 0 <= o < |content| :: LastSave(es, u, o) >= 0 && ByteSaved(es[LastSave(es, u, o)], u, o) == content[o]
  }

  /** So the whole file is right if and only if, offset by offset, the last save carried the content. */
  lemma DroppedFileRightIff(disk: map<Text, seq<byte>>, es: seq<Event>, e: Event, u: Text, content: seq<byte>)
    requires Run(Init(disk), es) && Enabled(Exec(Init(disk), es), e) && AllOpened(es, u)
    requires Tracked(Exec(Init(disk), es), u) && !Tracked(Next(Exec(Init(disk), es), e), u)
    requires |content| <= Reach(Exec(Init(disk), es).uris[u].size)
    ensures Slice(FileOf(Next(Exec(Init(disk), es), e).disk, u), 0, |content|) == content
       <==> LastSavesCarry(es, u, content)
  {
    var g := FileOf(Next(Exec(Init(disk), es), e).disk, u);
    forall o | 0 <= o < |content|
      ensures LastSave(es, u, o) >= 0
      ensures ByteRight(g, content, o) <==> ByteSaved(es[LastSave(es, u, o)], u, o) == content[o]
    {
      DroppedByteRightIff(disk, es, e, u, content, o);
    }
    PrefixIff(g, content);
  }

  /** Every save of the file was one full pass. */
  ghost predicate AllAtOnce(es: seq<Event>, u: Text) {
    forall e | e in es :: e.Save? && e.uri == u ==> WrittenAtOnce(e)
  }

  /** When every save was one full pass, what counts is the data of the last save that covered the offset. */
  lemma DroppedAtOnceIff(disk: map<Text, seq<byte>>, es: seq<Event>, e: Event, u: Text, content: seq<byte>)
    requires Run(Init(disk), es) && Enabled(Exec(Init(disk), es), e) && AllAtOnce(es, u)
    requires Tracked(Exec(Init(disk), es), u) && !Tracked(Next(Exec(Init(disk), es), e), u)
    requires |content| <= Reach(Exec(Init(disk), es).uris[u].size)
    ensures Slice(FileOf(Next(Exec(Init(disk), es), e).disk, u), 0, |content|) == content
       <==> LastDataIs(es, u, content)
  {
    DroppedFileRightIff(disk, es, e, u, content);
    CarriedIsData(es, u, content);
  }

  /** The data of the last saves is this content. */
  ghost predicate LastDataIs(es: seq<Event>, u: Text, content: seq<byte>) {
    forall o | 0 <= o < |content| ::
      LastSave(es, u, o) >= 0 && DataAt(es[LastSave(es, u, o)], u, o) == content[o]
  }

  function DataAt(e: Event, u: Text, o: nat): byte
    requires Covers(e, u, o)
  {
    e.data[o - e.start]
  }

  lemma CarriedIsData(es: seq<Event>, u: Text, content: seq<byte>)
    requires AllAtOnce(es, u)
    ensures LastSavesCarry(es, u, content) <==> LastDataIs(es, u, content)
  {
    forall o | 0 <= o < |content| && LastSave(es, u, o) >= 0
      ensures ByteSaved(es[LastSave(es, u, o)], u, o) == DataAt(es[LastSave(es, u, o)], u, o)
    {
      ByteSavedAtOnce(es[LastSave(es, u, o)], u, o);
    }
  }

  lemma PrefixIff(f: seq<byte>, content: seq<byte>)
    ensures Slice(f, 0, |content|) == content <==> HoldsUpTo(f, content, |content|)
  {
    if HoldsUpTo(f, content, |content|) {
      AllBytesRight(f, content);
    }
    if |content| <= |f| && f[..|content|] == content {
      assert forall o | 0 <= o < |content| :: f[..|content|][o] == f[o];
    }
  }

  // One save.

  lemma HoldsBlockIff(f: seq<byte>, content: seq<byte>, b: Block)
    ensures HoldsBlock(f, content, b) <==> forall o | b.start <= o < b.end :: ByteRight(f, content, o)
  {
    if forall o | b.start <= o < b.end :: ByteRight(f, content, o) {
      if b.start < b.end {
        assert ByteRight(f, content, b.end - 1);
        assert forall o | b.start <= o < b.end :: ByteRight(f, content, o) ==> f[o] == content[o];
      }
    }
    if HoldsBlock(f, content, b) {
      forall o | b.start <= o < b.end ensures ByteRight(f, content, o) {
        BlockByteRight(f, content, b, o);
      }
    }
  }

  lemma FinishedRightIff(s: Sys, u: Text, content: seq<byte>)
    ensures FinishedRight(s, u, content)
       <==> forall o: nat | InFinished(s, u, o) :: ByteRight(FileOf(s.disk, u), content, o)
  {
    var f := FileOf(s.disk, u);
    forall b | b in DoneOf(s.done, u)
      ensures HoldsBlock(f, content, b) <==> forall o | b.start <= o < b.end :: ByteRight(f, content, o)
    {
      HoldsBlockIff(f, content, b);
    }
    if forall o: nat | InFinished(s, u, o) :: ByteRight(f, content, o) {
      forall b, o | b in DoneOf(s.done, u) && b.start <= o < b.end ensures ByteRight(f, content, o) {
        assert Contains(b, o);
        assert InFinished(s, u, o);
      }
    }
    if FinishedRight(s, u, content) {
      forall o: nat | InFinished(s, u, o) ensures ByteRight(f, content, o) {
        var b :| b in DoneOf(s.done, u) && Contains(b, o);
        assert HoldsBlock(f, content, b);
      }
    }
  }

  /** What a save writes into finished blocks is what they should hold. */
  ghost predicate AgreesWithFinished(s: Sys, e: Event, u: Text, content: seq<byte>) {
    forall o: nat | InFinished(s, u, o) && Covers(e, u, o) :: o < |content| && ByteSaved(e, u, o) == content[o]
  }

  /**
   * Finished blocks stay right under a save if and only if it agrees with the content on every offset inside
   * them. The lookup that follows comes too late to make a difference.
   */
  lemma SaveKeepsFinishedIff(s: Sys, e: Event, u: Text, content: seq<byte>)
    requires Enabled(s, e) && e.Save? && FinishedRight(s, u, content)
    ensures FinishedRight(Next(s, e), u, content) <==> AgreesWithFinished(s, e, u, content)
  {
    var s' := Next(s, e);
    FinishedRightIff(s, u, content);
    FinishedRightIff(s', u, content);
    forall o: nat | InFinished(s, u, o)
      ensures ByteRight(FileOf(s'.disk, u), content, o)
         <==> (Covers(e, u, o) ==> o < |content| && ByteSaved(e, u, o) == content[o])
    {
      SaveByte(s, e, u, o);
    }
    assert forall o: nat :: InFinished(s', u, o) <==> InFinished(s, u, o);
  }

  // A late reply, from the announcements to the dropped file.

  const FIRST := Block(0, BLOCK_SIZE)
  const SECOND := Block(BLOCK_SIZE, 2 * BLOCK_SIZE)

  lemma TwoBlocks()
    ensures Cut(BLOCK_SIZE) == [FIRST] && Cut(2 * BLOCK_SIZE) == [FIRST, SECOND]
    ensures Reach(2 * BLOCK_SIZE) == 2 * BLOCK_SIZE
  {
    assert LoopBound(2 * BLOCK_SIZE) == 2 * BLOCK_SIZE + 1;
    assert BlocksIn(2 * BLOCK_SIZE) == 2;
  }

  /** Every reply carries, at its place, the bytes of one version, or of another if it is not from peer p. */
  ghost predicate Honest(es: seq<Event>, p: NetAddr, content: seq<byte>, other: seq<byte>) {
    forall e | e in es && e.Save? :: CarriesPartOf(e, if e.peer == p then content else other)
  }

  predicate CarriesPartOf(e: Event, content: seq<byte>) {
    e.Save? && e.start + |e.data| <= |content| && e.data == content[e.start..e.start + |e.data|]
  }

  lemma HonestThen(es: seq<Event>, fs: seq<Event>, p: NetAddr, content: seq<byte>, other: seq<byte>)
    requires Honest(es, p, content, other) && Honest(fs, p, content, other)
    ensures Honest(es + fs, p, content, other)
  {
  }

  /** The only file is asked for once more, by the task that is pending. */
  lemma OnceMoreAsked(s: Sys, peer: NetAddr, u: Text, rest: seq<Block>, b: Block)
    requires s.worker.Idle? && s.tasks == [u] && u in s.uris && s.uris[u].owner == [peer]
    requires s.uris[u].block == rest + [b] && b.end != 0 && |s.uris[u].syncing| < DOWNLOAD_LIMIT
    ensures Run(s, AskEvents()) && Produced(s, AskEvents())
    ensures var rs := s.uris[u];
            Exec(s, AskEvents())
            == s.(tasks := [],
                  uris := s.uris[u := rs.(block := rest, syncing := rs.syncing + [SyncingRange(peer, b)])])
  {
    AskRuns(s, u);
    AssignedLast(s.uris[u], peer, rest, b);
    assert s.tasks[1..] == [];
  }

  /** A peer announces a file, and its only block is asked for. */
  lemma SmallAsked(q: NetAddr, u: Text, hash: Text) returns (es: seq<Event>)
    requires u != []
    ensures Run(Init(map[]), es) && Produced(Init(map[]), es)
    ensures Announce(q, u, hash, BLOCK_SIZE) in es && forall e | e in es :: !e.Save?
    ensures Exec(Init(map[]), es)
         == Init(map[]).(uris := map[u := SyncRs(u, BLOCK_SIZE, hash, [], [q], [SyncingRange(q, FIRST)], false)],
                         done := map[u := []], said := [Said(u, Ann(q, hash, BLOCK_SIZE))])
  {
    var announced := SmallAnnounced(q, u, hash);
    SmallTaken(Exec(Init(map[]), announced), q, u, hash);
    ProducedThen(Init(map[]), announced, AskEvents());
    AskIsOfWorker();
    es := announced + AskEvents();
  }

  lemma SmallAnnounced(q: NetAddr, u: Text, hash: Text) returns (es: seq<Event>)
    requires u != []
    ensures Run(Init(map[]), es) && Produced(Init(map[]), es)
    ensures Announce(q, u, hash, BLOCK_SIZE) in es && forall e | e in es :: !e.Save?
    ensures Exec(Init(map[]), es)
         == Init(map[]).(uris := map[u := SyncRs(u, BLOCK_SIZE, hash, [FIRST], [q], [], false)], tasks := [u],
                         done := map[u := []], said := [Said(u, Ann(q, hash, BLOCK_SIZE))])
  {
    var e := Announce(q, u, hash, BLOCK_SIZE);
    TwoBlocks();
    es := OnlyFileAnnounced(Init(map[]), e);
    assert es[0] == e;
    assert Next(Init(map[]), e).said == [Said(u, Ann(q, hash, BLOCK_SIZE))];
  }

  lemma SmallTaken(s: Sys, q: NetAddr, u: Text, hash: Text)
    requires s.worker.Idle? && s.tasks == [u]
    requires s.uris == map[u := SyncRs(u, BLOCK_SIZE, hash, [FIRST], [q], [], false)]
    ensures Run(s, AskEvents()) && Produced(s, AskEvents())
    ensures Exec(s, AskEvents())
         == s.(uris := map[u := SyncRs(u, BLOCK_SIZE, hash, [], [q], [SyncingRange(q, FIRST)], false)], tasks := [])
  {
    var rs, one := s.uris[u], SyncingRange(q, FIRST);
    assert rs.block == [] + [FIRST] && rs.syncing + [one] == [one];
    OnceMoreAsked(s, q, u, [], FIRST);
    var rs' := rs.(block := [], syncing := [one]);
    assert map[u := rs][u := rs'] == map[u := rs'];
  }

  lemma LargerStarts(m: Files, p: NetAddr, u: Text, hash: Text)
    requires u in m && m[u].size == BLOCK_SIZE
    ensures Register(m, p, u, hash, 2 * BLOCK_SIZE).0
         == m[u := SyncRs(u, 2 * BLOCK_SIZE, hash, [FIRST, SECOND], [p], [], false)]
  {
    TwoBlocks();
  }

  /** Another peer announces a larger version, and both blocks of that are asked for. */
  lemma LargeAsked(s: Sys, p: NetAddr, u: Text, hash: Text) returns (es: seq<Event>)
    requires s.loop.Waiting? && s.worker.Idle? && s.tasks == [] && u != [] && OnlyFile(s, u)
    requires u in s.uris && s.uris[u].size == BLOCK_SIZE
    ensures Run(s, es) && Produced(s, es)
    ensures Announce(p, u, hash, 2 * BLOCK_SIZE) in es && forall e | e in es :: !e.Save?
    ensures Exec(s, es)
         == s.(uris := s.uris[u := SyncRs(u, 2 * BLOCK_SIZE, hash, [], [p],
                                          [SyncingRange(p, SECOND), SyncingRange(p, FIRST)], false)],
               done := s.done[u := []], said := s.said + [Said(u, Ann(p, hash, 2 * BLOCK_SIZE))])
  {
    var announced := LargeAnnounced(s, p, u, hash);
    var asked := BothAsked(Exec(s, announced), p, u, hash);
    ProducedThen(s, announced, asked);
    var rs := SyncRs(u, 2 * BLOCK_SIZE, hash, [FIRST, SECOND], [p], [], false);
    UpdatedTwice(s.uris, u, rs, rs.(block := [], syncing := [SyncingRange(p, SECOND), SyncingRange(p, FIRST)]));
    es := announced + asked;
  }

  lemma UpdatedTwice(m: Files, u: Text, rs: SyncRs, rs': SyncRs)
    ensures m[u := rs][u := rs'] == m[u := rs']
  {
  }

  lemma LargeAnnounced(s: Sys, p: NetAddr, u: Text, hash: Text) returns (es: seq<Event>)
    requires s.loop.Waiting? && s.tasks == [] && u != [] && OnlyFile(s, u)
    requires u in s.uris && s.uris[u].size == BLOCK_SIZE
    ensures Run(s, es) && Produced(s, es)
    ensures Announce(p, u, hash, 2 * BLOCK_SIZE) in es && forall e | e in es :: !e.Save?
    ensures Exec(s, es)
         == s.(uris := s.uris[u := SyncRs(u, 2 * BLOCK_SIZE, hash, [FIRST, SECOND], [p], [], false)], tasks := [u],
               done := s.done[u := []], said := s.said + [Said(u, Ann(p, hash, 2 * BLOCK_SIZE))])
  {
    var e := Announce(p, u, hash, 2 * BLOCK_SIZE);
    LargerStarts(s.uris, p, u, hash);
    es := OnlyFileAnnounced(s, e);
    assert es[0] == e;
  }

  lemma BothAsked(s: Sys, p: NetAddr, u: Text, hash: Text) returns (es: seq<Event>)
    requires s.loop.Waiting? && s.worker.Idle? && s.tasks == [u] && OnlyFile(s, u)
    requires u in s.uris && s.uris[u] == SyncRs(u, 2 * BLOCK_SIZE, hash, [FIRST, SECOND], [p], [], false)
    ensures Run(s, es) && Produced(s, es) && forall e | e in es :: !e.Save?
    ensures Exec(s, es)
         == s.(tasks := [], uris := s.uris[u := SyncRs(u, 2 * BLOCK_SIZE, hash, [], [p],
                                                       [SyncingRange(p, SECOND), SyncingRange(p, FIRST)], false)])
  {
    var rs, one := s.uris[u], SyncingRange(p, SECOND);
    var rs1 := rs.(block := [FIRST], syncing := [one]);
    assert rs.block == [FIRST] + [SECOND] && rs.syncing + [one] == [one];
    OnceMoreAsked(s, p, u, [FIRST], SECOND);
    var t := s.(tasks := [], uris := s.uris[u := rs1]);
    assert Exec(s, AskEvents()) == t;
    var more := SecondAsked(t, p, u);
    ProducedThen(s, AskEvents(), more);
    AskIsOfWorker();
    es := AskEvents() + more;
  }

  lemma SecondAsked(s: Sys, p: NetAddr, u: Text) returns (es: seq<Event>)
    requires s.loop.Waiting? && s.worker.Idle? && s.tasks == [] && OnlyFile(s, u)
    requires u in s.uris && s.uris[u].block == [FIRST] && s.uris[u].owner == [p]
    requires s.uris[u].syncing == [SyncingRange(p, SECOND)]
    ensures Run(s, es) && Produced(s, es) && forall e | e in es :: !e.Save?
    ensures Exec(s, es)
         == s.(uris := s.uris[u := s.uris[u].(block := [],
                                              syncing := [SyncingRange(p, SECOND), SyncingRange(p, FIRST)])])
  {
    var t := s.(tasks := [u]);
    assert [FIRST] == [] + [FIRST];
    assert s.uris[u].syncing + [SyncingRange(p, FIRST)] == [SyncingRange(p, SECOND), SyncingRange(p, FIRST)];
    OnlyFileRefreshed(s, u);
    assert Exec(s, AddsFor(s, u)) == t;
    OnceMoreAsked(t, p, u, [], FIRST);
    ProducedThen(s, AddsFor(s, u), AskEvents());
    AskIsOfWorker();
    es := AddsFor(s, u) + AskEvents();
  }

  /** One reply to the only file. */
  lemma OnlyAnswered(s: Sys, peer: NetAddr, u: Text, b: Block, data: seq<byte>, p: NetAddr, content: seq<byte>,
                     other: seq<byte>) returns (es: seq<Event>)
    requires s.loop.Waiting? && u != [] && OnlyFile(s, u)
    requires b.start + |data| == b.end < TWO_63 && |data| <= ONCE_MAX
    requires CarriesPartOf(Save(peer, u, b.start, data, Opened([])), if peer == p then content else other)
    ensures Run(s, es) && Produced(s, es) && Honest(es, p, content, other)
    ensures var t := Exec(s, es);
            && t.loop.Waiting? && t.uris == Finish(s.uris, peer, u, b, 0) && OnlyFile(t, u)
            && FileOf(t.disk, u) == Overlay(FileOf(s.disk, u), b.start, data)
  {
    es := OnlyFileAnswered(s, peer, u, b, data);
  }

  /** What the three replies below do to the ranges in flight. */
  lemma ThreeFinished(m: Files, p: NetAddr, q: NetAddr, u: Text)
    requires p != q && u in m && m[u].block == []
    requires m[u].syncing == [SyncingRange(p, SECOND), SyncingRange(p, FIRST)]
    ensures var m1 := Finish(m, p, u, FIRST, 0);
            Finish(m1, q, u, FIRST, 0) == m1 && Finish(m1, p, u, SECOND, 0) == m - {u}
  {
    OneLeft(p);
    var m1 := Finish(m, p, u, FIRST, 0);
    assert m1[u].syncing == [SyncingRange(p, SECOND)];
    assert m1[u := m1[u]] == m1;
    OnlyRangeDone(m1, p, u, SECOND);
    assert m1 - {u} == m - {u};
  }

  /** The first block arrives, then the late one over it, then the second block. */
  lemma LateAnswered(s: Sys, p: NetAddr, q: NetAddr, u: Text, hash: Text, was: seq<byte>, content: seq<byte>)
    returns (es: seq<Event>)
    requires s.loop.Waiting? && u != [] && p != q && |was| == BLOCK_SIZE && |content| == 2 * BLOCK_SIZE
    requires OnlyFile(s, u) && u in s.uris && FileOf(s.disk, u) == []
    requires s.uris[u] == SyncRs(u, 2 * BLOCK_SIZE, hash, [], [p],
                                 [SyncingRange(p, SECOND), SyncingRange(p, FIRST)], false)
    ensures Run(s, es) && Produced(s, es) && Honest(es, p, content, was)
    ensures u !in Exec(s, es).uris && FileOf(Exec(s, es).disk, u) == was + content[BLOCK_SIZE..]
  {
    var front, back := content[..BLOCK_SIZE], content[BLOCK_SIZE..];
    var a := OnlyAnswered(s, p, u, FIRST, front, p, content, was);
    var s1 := Exec(s, a);
    var b := OnlyAnswered(s1, q, u, FIRST, was, p, content, was);
    var s2 := Exec(s1, b);
    var c := OnlyAnswered(s2, p, u, SECOND, back, p, content, was);
    ThreeFinished(s.uris, p, q, u);
    ProducedThen(s, a, b);
    ProducedThen(s, a + b, c);
    HonestThen(a, b, p, content, was);
    HonestThen(a + b, c, p, content, was);
    OverlaidThrice(front, was, back);
    es := a + b + c;
  }

  lemma OneLeft(p: NetAddr)
    ensures var first, second := SyncingRange(p, FIRST), SyncingRange(p, SECOND);
            LastOf([second, first], first) == 1 && RemoveAt([second, first], 1) == [second]
  {
  }

  lemma OverlaidThrice(front: seq<byte>, was: seq<byte>, back: seq<byte>)
    requires |front| == |was| == |back| == BLOCK_SIZE
    ensures Overlay(Overlay(Overlay([], 0, front), 0, was), BLOCK_SIZE, back) == was + back
  {
    assert Overlay([], 0, front) == front;
    assert Overlay(front, 0, was) == was;
  }

  /**
   * From the first announcement to the dropped file: every reply carries the bytes of the version its sender
   * announced, the late one matches no range in flight, and yet it is what the finished file holds. The file
   * is the tracked version if and only if the old one happens to begin like it.
   */
  lemma LateReplySpoils(p: NetAddr, q: NetAddr, u: Text, hash: Text, hash': Text, was: seq<byte>, content: seq<byte>)
    returns (es: seq<Event>)
    requires u != [] && p != q && |was| == BLOCK_SIZE && |content| == 2 * BLOCK_SIZE
    ensures Run(Init(map[]), es) && Produced(Init(map[]), es) && u !in Exec(Init(map[]), es).uris
    ensures Announce(q, u, hash, |was|) in es && Announce(p, u, hash', |content|) in es
    ensures Honest(es, p, content, was)
    ensures FileOf(Exec(Init(map[]), es).disk, u) == was + content[BLOCK_SIZE..]
    ensures FileOf(Exec(Init(map[]), es).disk, u) == content <==> was == content[..BLOCK_SIZE]
  {
    var s := Init(map[]);
    var small := SmallAsked(q, u, hash);
    var large := LargeAsked(Exec(s, small), p, u, hash');
    var late := LateAnswered(Exec(Exec(s, small), large), p, q, u, hash', was, content);
    ProducedThen(s, small, large);
    ProducedThen(s, small + large, late);
    HonestThen(small, large, p, content, was);
    HonestThen(small + large, late, p, content, was);
    es := small + large + late;
    BeginsAlike(was, content);
  }

  lemma BeginsAlike(was: seq<byte>, content: seq<byte>)
    requires |was| <= |content|
    ensures was + content[|was|..] == content <==> was == content[..|was|]
  {
    var whole := was + content[|was|..];
    if was == content[..|was|] {
      assert whole == content;
    }
    if whole == content {
      assert whole[..|was|] == was;
    }
  }

  // A file that does not open.

  /** A failed save is not noticed: the file is dropped as complete, and nothing of it is on disk. */
  lemma UnopenedFileCompletes(p: NetAddr, u: Text, hash: Text, content: seq<byte>) returns (es: seq<Event>)
    requires u != [] && |content| == BLOCK_SIZE
    ensures Run(Init(map[]), es) && Produced(Init(map[]), es) && u !in Exec(Init(map[]), es).uris
    ensures Announce(p, u, hash, |content|) in es && Honest(es, p, content, content)
    ensures FileOf(Exec(Init(map[]), es).disk, u) == []
  {
    var ask := SmallAsked(p, u, hash);
    var t := Exec(Init(map[]), ask);
    var lost := SavedInVain(t, p, u, content);
    ProducedThen(Init(map[]), ask, lost);
    es := ask + lost;
  }

  lemma SavedInVain(s: Sys, p: NetAddr, u: Text, content: seq<byte>) returns (es: seq<Event>)
    requires s.loop.Waiting? && u != [] && |content| == BLOCK_SIZE && OnlyFile(s, u)
    requires u in s.uris && s.uris[u].block == [] && s.uris[u].syncing == [SyncingRange(p, FIRST)]
    ensures Run(s, es) && Produced(s, es) && Honest(es, p, content, content)
    ensures u !in Exec(s, es).uris && FileOf(Exec(s, es).disk, u) == FileOf(s.disk, u)
  {
    var save := Save(p, u, 0, content, NotOpened);
    RunTwo(s, save, Complete(0));
    OnlyRangeDone(s.uris, p, u, FIRST);
    assert forall v :: v !in Exec(s, [save, Complete(0)]).uris;
    ReplyProduces(s, save, Complete(0), []);
    es := [save, Complete(0)] + [];
  }
}
