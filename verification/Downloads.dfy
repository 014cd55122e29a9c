// What the downloader guarantees over whole runs.
module Downloads {
  import opened Octets
  import opened Blocks
  import opened Allocator
  import opened Announcements
  import opened FileIo
  import opened Machine

  // Invariants every run keeps.

  /** A tracked file that is not a phantom. */
  predicate Tracked(s: Sys, u: Text) { u in s.uris && s.uris[u].uri != [] }

  /** The open blocks, those in flight and the finished ones are the blocks of the file, each exactly once. */
  lemma BlocksAreConserved(disk: map<Text, seq<byte>>, es: seq<Event>, u: Text)
    requires Run(Init(disk), es) && Tracked(Exec(Init(disk), es), u)
    ensures var s := Exec(Init(disk), es);
            Held(s.uris[u]) + multiset(DoneOf(s.done, u)) == multiset(Cut(s.uris[u].size))
  {
    RunOk(Init(disk), es);
  }

  /** No file ever has more than five ranges in flight, and no task is pending twice. */
  lemma InFlightIsBounded(disk: map<Text, seq<byte>>, es: seq<Event>)
    requires Run(Init(disk), es)
    ensures forall u | u in Exec(Init(disk), es).uris :: |Exec(Init(disk), es).uris[u].syncing| <= 5
    ensures Distinct(Exec(Init(disk), es).tasks)
  {
    RunOk(Init(disk), es);
  }

  /** Owners are distinct, each has announced exactly the tracked version, and every range is with an owner. */
  lemma OwnersAreCoherent(disk: map<Text, seq<byte>>, es: seq<Event>, u: Text)
    requires Run(Init(disk), es) && Tracked(Exec(Init(disk), es), u)
    ensures var s := Exec(Init(disk), es);
            var rs := s.uris[u];
            && Distinct(rs.owner)
            && (forall p | p in rs.owner :: Said(u, Ann(p, rs.hash, rs.size)) in s.said)
            && (forall r | r in rs.syncing :: r.peer in rs.owner)
  {
    RunOk(Init(disk), es);
  }

  /** The success flag of a file that is complete is never to be seen: the entry is erased with it. */
  lemma SuccessIsNeverSeen(disk: map<Text, seq<byte>>, es: seq<Event>, u: Text, junk: u64)
    requires Run(Init(disk), es)
    ensures !At(Exec(Init(disk), es).uris, u, junk).success
  {
    RunOk(Init(disk), es);
    AtOk(Exec(Init(disk), es), u, junk);
  }

  // A peer that is gone.

  /** The peer owns nothing of the file and has no range of it in flight. */
  ghost predicate Gone(s: Sys, p: NetAddr, u: Text) { GoneFrom(s.uris, p, u) }

  ghost predicate GoneFrom(m: Files, p: NetAddr, u: Text) {
    u in m ==> p !in m[u].owner && forall r | r in m[u].syncing :: r.peer != p
  }

  predicate Silent(e: Event, p: NetAddr, u: Text) { e.Announce? ==> !(e.peer == p && e.uri == u) }

  lemma GoneEntry(rs: SyncRs, p: NetAddr, peer: NetAddr, b: Block)
    requires p !in rs.owner && forall r | r in rs.syncing :: r.peer != p
    ensures var a := Assigned(rs, peer).0; p !in a.owner && forall r | r in a.syncing :: r.peer != p
    ensures var g := GaveBack(rs, peer, b); p !in g.owner && forall r | r in g.syncing :: r.peer != p
    ensures var g := GaveBackAll(rs, peer); p !in g.owner && forall r | r in g.syncing :: r.peer != p
    ensures var f := Finished(rs, peer, b);
            f.Some? ==> p !in f.value.owner && forall r | r in f.value.syncing :: r.peer != p
  {
    WithoutMembers(rs.owner, peer, p);
    forall r ensures r in NotWith(rs.syncing, peer) <==> r in rs.syncing && r.peer != peer {
      NotWithMembers(rs.syncing, peer, r);
    }
    if SyncingRange(peer, b) in rs.syncing {
      RemoveMembers(rs.syncing, LastOf(rs.syncing, SyncingRange(peer, b)));
    }
  }

  lemma GoneOperations(m: Files, peer: NetAddr, v: Text, b: Block, junk: u64, p: NetAddr, u: Text)
    requires GoneFrom(m, p, u)
    ensures GoneFrom(Finish(m, peer, v, b, junk), p, u) && GoneFrom(GiveBack(m, peer, b, v, junk), p, u)
    ensures GoneFrom(Assign(m, peer, v, junk).0, p, u) && GoneFrom(GiveBackAll(m, peer, v, junk), p, u)
    ensures GoneFrom(Touch(m, v, junk), p, u)
  {
    GoneEntry(At(m, u, junk), p, peer, b);
  }

  lemma GoneRegister(m: Files, peer: NetAddr, v: Text, hash: Text, size: u64, p: NetAddr, u: Text)
    requires GoneFrom(m, p, u) && !(peer == p && v == u)
    ensures GoneFrom(Register(m, peer, v, hash, size).0, p, u)
  {
  }

  lemma GoneStep(s: Sys, e: Event, p: NetAddr, u: Text)
    requires Enabled(s, e) && Gone(s, p, u) && Silent(e, p, u)
    ensures Gone(Next(s, e), p, u)
  {
    match e {
      case Announce(peer, v, hash, size) => GoneRegister(s.uris, peer, v, hash, size, p, u);
      case Complete(junk) => GoneOperations(s.uris, s.loop.peer, s.loop.uri, s.loop.block, junk, p, u);
      case SaveFailed(junk) => GoneOperations(s.uris, s.loop.peer, s.loop.uri, s.loop.block, junk, p, u);
      case Allot(junk) => GoneOperations(s.uris, s.worker.peer, s.worker.uri, Block(0, 0), junk, p, u);
      case SendFailed(junk) => GoneOperations(s.uris, s.worker.peer, s.worker.uri, Block(0, 0), junk, p, u);
      case Save(_, _, _, _, _) =>
      case AddTask(_) =>
      case TakeTask =>
      case Sent =>
      case CopyOwners(junk) => GoneOperations(s.uris, p, s.worker.uri, Block(0, 0), junk, p, u);
      case CountOwners(junk) => GoneOperations(s.uris, p, s.worker.uri, Block(0, 0), junk, p, u);
      case CountBlocks(junk) => GoneOperations(s.uris, p, s.worker.uri, Block(0, 0), junk, p, u);
      case CountSyncing(junk) => GoneOperations(s.uris, p, s.worker.uri, Block(0, 0), junk, p, u);
      case Choose(_, junk) => GoneOperations(s.uris, p, s.worker.uri, Block(0, 0), junk, p, u);
    }
  }

  /** Until it announces the file again, a peer that is gone stays gone. */
  lemma {:induction false} GoneStaysGone(s: Sys, es: seq<Event>, p: NetAddr, u: Text)
    requires Run(s, es) && Gone(s, p, u) && forall e | e in es :: Silent(e, p, u)
    ensures Gone(Exec(s, es), p, u)
    decreases |es|
  {
    if es != [] {
      assert es[0] in es;
      GoneStep(s, es[0], p, u);
      GoneStaysGone(Next(s, es[0]), es[1..], p, u);
    }
  }

  lemma FailedPeerIsGone(s: Sys, junk: u64)
    requires Inv(s) && s.worker.Sending?
    ensures Gone(Next(s, SendFailed(junk)), s.worker.peer, s.worker.uri)
  {
    var p, u := s.worker.peer, s.worker.uri;
    AtOk(s, u, junk);
    GaveBackAllOk(u, At(s.uris, u, junk), DoneOf(s.done, u), s.said, p);
  }

  lemma GoneGetsNothing(s: Sys, p: NetAddr, u: Text, junk: u64)
    requires Gone(s, p, u)
    ensures Assign(s.uris, p, u, junk) == (Touch(s.uris, u, junk), Block(0, 0))
  {
  }

  /**
   * After a failed send the peer is gone from the file, and whatever follows, as long as it does not announce
   * the file again, choosing it for an assignment hands out nothing and changes no block of the file.
   */
  lemma FailedPeerGetsNothing(s: Sys, junk: u64, es: seq<Event>, junk': u64)
    requires Inv(s) && s.worker.Sending?
    requires Run(Next(s, SendFailed(junk)), es)
    requires forall e | e in es :: Silent(e, s.worker.peer, s.worker.uri)
    ensures var p, u, t := s.worker.peer, s.worker.uri, Exec(Next(s, SendFailed(junk)), es);
            && Gone(t, p, u)
            && Assign(t.uris, p, u, junk').1 == Block(0, 0)
            && Assign(t.uris, p, u, junk').0 == Touch(t.uris, u, junk')
  {
    var p, u := s.worker.peer, s.worker.uri;
    FailedPeerIsGone(s, junk);
    GoneStaysGone(Next(s, SendFailed(junk)), es, p, u);
    GoneGetsNothing(Exec(Next(s, SendFailed(junk)), es), p, u, junk');
  }

  // The bytes.

  datatype Version = Version(uri: Text, size: u64, hash: Text)

  function VersionOf(u: Text, rs: SyncRs): Version { Version(u, rs.size, rs.hash) }

  /** The file opens, and one full pass writes all the data. */
  predicate WrittenAtOnce(e: Event)
    requires e.Save?
  {
    |e.data| <= ONCE_MAX && e.io.Opened? && InFull(e.io.answers, |e.data|)
  }

  /**
   * A reply for a tracked file carries bytes of the tracked version, fits into one pass and is written in
   * full. src tells the bytes of every version.
   */
  ghost predicate Faithful(s: Sys, e: Event, src: Version -> seq<byte>) {
    e.Save? && Tracked(s, e.uri) ==>
      var content, end := src(VersionOf(e.uri, s.uris[e.uri])), e.start + |e.data|;
      && end <= |content| && e.data == content[e.start..end]
      && WrittenAtOnce(e)
  }

  ghost predicate FaithfulRun(s: Sys, es: seq<Event>, src: Version -> seq<byte>)
    requires Run(s, es)
    decreases |es|
  {
    es != [] ==> Faithful(s, es[0], src) && FaithfulRun(Next(s, es[0]), es[1..], src)
  }

  predicate HoldsBlock(f: seq<byte>, content: seq<byte>, b: Block) {
    b.start < b.end ==> HoldsRange(f, content, b.start, b.end)
  }

  /** Every finished block of the file is on disk. */
  ghost predicate FinishedRight(s: Sys, u: Text, content: seq<byte>) {
    forall b | b in DoneOf(s.done, u) :: HoldsBlock(FileOf(s.disk, u), content, b)
  }

  ghost predicate ContentOf(s: Sys, u: Text, content: seq<byte>) {
    && FinishedRight(s, u, content)
    && (s.loop.Saved? && s.loop.uri == u ==> HoldsBlock(FileOf(s.disk, u), content, s.loop.block))
  }

  /** Every finished block of a tracked file, and the block just saved, is on disk. */
  ghost predicate ContentOk(s: Sys, src: Version -> seq<byte>) {
    forall u | Tracked(s, u) :: ContentOf(s, u, src(VersionOf(u, s.uris[u])))
  }

  lemma SaveContent(s: Sys, e: Event, u: Text, content: seq<byte>)
    requires Enabled(s, e) && e.Save? && ContentOf(s, u, content)
    requires e.uri == u ==> e.start + |e.data| <= |content| && e.data == content[e.start..e.start + |e.data|]
    requires e.uri == u ==> WrittenAtOnce(e)
    ensures ContentOf(Next(s, e), u, content)
  {
    if e.uri == u {
      var f, start, end := FileOf(s.disk, u), e.start, e.start + |e.data|;
      OnePassWrites(f, start, e.data, e.io.answers);
      var g := Overlay(f, start, e.data);
      assert FileOf(Next(s, e).disk, u) == g;
      SaveKeepsRanges(f, content, start, end, 0, 0);
      forall b | b in DoneOf(s.done, u) ensures HoldsBlock(g, content, b) {
        SaveKeepsRanges(f, content, start, end, b.start, b.end);
      }
    }
  }

  predicate SameVersion(rs: SyncRs, rs': SyncRs) { rs.uri == rs'.uri && rs.size == rs'.size && rs.hash == rs'.hash }

  lemma EntryKeepsVersion(rs: SyncRs, peer: NetAddr, b: Block)
    ensures SameVersion(rs, Assigned(rs, peer).0)
    ensures SameVersion(rs, GaveBack(rs, peer, b))
    ensures SameVersion(rs, GaveBackAll(rs, peer))
    ensures Finished(rs, peer, b).Some? ==> SameVersion(rs, Finished(rs, peer, b).value)
  {
  }

  /** Apart from announcements, a step only gives an entry another state of the same version. */
  lemma EntryStep(s: Sys, e: Event, u: Text) returns (junk: u64)
    requires Enabled(s, e) && !e.Announce? && u in Next(s, e).uris
    ensures SameVersion(At(s.uris, u, junk), Next(s, e).uris[u])
  {
    junk := 0;
    match e {
      case Announce(_, _, _, _) =>
      case Save(_, _, _, _, _) =>
      case AddTask(_) =>
      case TakeTask =>
      case Sent =>
      case Complete(j) =>
        junk := j;
        EntryKeepsVersion(At(s.uris, u, junk), s.loop.peer, s.loop.block);
      case SaveFailed(j) =>
        junk := j;
        EntryKeepsVersion(At(s.uris, u, junk), s.loop.peer, s.loop.block);
      case Allot(j) =>
        junk := j;
        EntryKeepsVersion(At(s.uris, u, junk), s.worker.peer, Block(0, 0));
      case SendFailed(j) =>
        junk := j;
        EntryKeepsVersion(At(s.uris, u, junk), s.worker.peer, Block(0, 0));
      case CopyOwners(j) => junk := j;
      case CountOwners(j) => junk := j;
      case CountBlocks(j) => junk := j;
      case CountSyncing(j) => junk := j;
      case Choose(_, j) => junk := j;
    }
  }

  /** What a step does to a file that is tracked after it. */
  lemma TrackedStep(s: Sys, e: Event, u: Text)
    requires Enabled(s, e) && Tracked(Next(s, e), u)
    ensures (e.Announce? && e.uri == u && Starts(s.uris, u, e.size))
         || (Tracked(s, u) && VersionOf(u, s.uris[u]) == VersionOf(u, Next(s, e).uris[u]))
  {
    if !e.Announce? {
      var junk := EntryStep(s, e, u);
    }
  }

  lemma ContentStep(s: Sys, e: Event, src: Version -> seq<byte>)
    requires Inv(s) && Enabled(s, e) && ContentOk(s, src) && Faithful(s, e, src)
    ensures ContentOk(Next(s, e), src)
  {
    var s' := Next(s, e);
    forall u | Tracked(s', u) ensures ContentOf(s', u, src(VersionOf(u, s'.uris[u]))) {
      TrackedStep(s, e, u);
      if e.Announce? && e.uri == u && Starts(s.uris, u, e.size) {
        assert DoneOf(s'.done, u) == [];
      } else {
        var content := src(VersionOf(u, s.uris[u]));
        assert ContentOf(s, u, content);
        if e.Save? {
          SaveContent(s, e, u, content);
        } else {
          QuietContent(s, e, u, content);
        }
      }
    }
  }

  /** Without a save, a block is finished only when it was the one just saved. */
  lemma QuietContent(s: Sys, e: Event, u: Text, content: seq<byte>)
    requires Enabled(s, e) && !e.Save? && ContentOf(s, u, content)
    ensures ContentOf(Next(s, e), u, content)
  {
    assert Next(s, e).disk == s.disk;
    forall b | b in DoneOf(Next(s, e).done, u) ensures b in DoneOf(s.done, u)
                                                 || (s.loop.Saved? && s.loop.uri == u && s.loop.block == b)
    {
    }
  }

  lemma {:induction false} ContentRun(s: Sys, es: seq<Event>, src: Version -> seq<byte>)
    requires Inv(s) && ContentOk(s, src) && Run(s, es) && FaithfulRun(s, es, src)
    ensures Inv(Exec(s, es)) && ContentOk(Exec(s, es), src)
    decreases |es|
  {
    if es != [] {
      StepOk(s, es[0]);
      ContentStep(s, es[0], src);
      ContentRun(Next(s, es[0]), es[1..], src);
    }
  }

  /** The offset lies in a block that is still open or in flight. */
  ghost predicate Pending(rs: SyncRs, o: nat) { exists b :: b in Held(rs) && Contains(b, o) }

  predicate ByteRight(f: seq<byte>, content: seq<byte>, o: nat) {
    o < |f| && o < |content| && f[o] == content[o]
  }

  /** The first n bytes of the content are in the file. */
  predicate HoldsUpTo(f: seq<byte>, content: seq<byte>, n: nat) {
    forall o | 0 <= o < n :: ByteRight(f, content, o)
  }

  lemma BlockByteRight(f: seq<byte>, content: seq<byte>, b: Block, o: nat)
    requires HoldsBlock(f, content, b) && Contains(b, o)
    ensures ByteRight(f, content, o)
  {
    assert f[b.start..b.end][o - b.start] == content[b.start..b.end][o - b.start];
  }

  /** An offset below Reach lies in a block of the cut. */
  lemma BlockAt(size: u64, o: nat) returns (b: Block)
    requires o < Reach(size)
    ensures b in multiset(Cut(size)) && Contains(b, o)
  {
    IndexInRange(size, o);
    var i := IndexAt(size, o);
    CutHolds(size, o, i);
    b := Cut(size)[i];
    assert b in Cut(size);
  }

  /**
   * At every moment of every run with faithful replies, every byte of a tracked file that its blocks reach is
   * still to come or is on disk and right.
   */
  lemma EveryByteAccountedFor(disk: map<Text, seq<byte>>, es: seq<Event>, src: Version -> seq<byte>, u: Text, o: nat)
    requires Run(Init(disk), es) && FaithfulRun(Init(disk), es, src)
    requires Tracked(Exec(Init(disk), es), u) && o < Reach(Exec(Init(disk), es).uris[u].size)
    ensures var s := Exec(Init(disk), es);
            Pending(s.uris[u], o) || ByteRight(FileOf(s.disk, u), src(VersionOf(u, s.uris[u])), o)
  {
    ContentRun(Init(disk), es, src);
    var s := Exec(Init(disk), es);
    var rs := s.uris[u];
    var b := BlockAt(rs.size, o);
    assert b in Held(rs) + multiset(DoneOf(s.done, u));
    if b !in Held(rs) {
      assert ContentOf(s, u, src(VersionOf(u, rs)));
      BlockByteRight(FileOf(s.disk, u), src(VersionOf(u, rs)), b, o);
    }
  }

  /** Only a completion takes an entry away. */
  lemma OnlyCompletionDrops(s: Sys, e: Event, u: Text)
    requires Inv(s) && Enabled(s, e) && Tracked(s, u) && !Tracked(Next(s, e), u)
    ensures e.Complete? && s.loop.uri == u && u !in Next(s, e).uris
  {
    if e.Announce? {
      RegisterTracks(s.uris, e.peer, e.uri, e.hash, e.size, u);
    } else if u in Next(s, e).uris {
      var junk := EntryStep(s, e, u);
    }
  }

  lemma RegisterTracks(m: Files, peer: NetAddr, v: Text, hash: Text, size: u64, u: Text)
    requires v != [] && u in m && m[u].uri != []
    ensures u in Register(m, peer, v, hash, size).0 && Register(m, peer, v, hash, size).0[u].uri != []
  {
  }

  lemma DropsWhenFinished(uris: Files, peer: NetAddr, u: Text, b: Block, junk: u64)
    requires u in uris && u !in Finish(uris, peer, u, b, junk)
    ensures Finished(uris[u], peer, b).None? && SyncingRange(peer, b) in uris[u].syncing
  {
  }

  /** The completion that drops a file leaves all its blocks finished. */
  lemma DroppedIsDone(s: Sys, e: Event, u: Text)
    requires Inv(s) && Enabled(s, e) && Tracked(s, u) && !Tracked(Next(s, e), u)
    ensures e.Complete? && s.loop.uri == u
    ensures multiset(DoneOf(Next(s, e).done, u)) == multiset(Cut(s.uris[u].size))
    ensures DoneOf(Next(s, e).done, u) == DoneOf(s.done, u) + [s.loop.block]
  {
    OnlyCompletionDrops(s, e, u);
    DropsWhenFinished(s.uris, s.loop.peer, u, s.loop.block, e.junk);
    FinishedOk(u, s.uris[u], DoneOf(s.done, u), s.said, s.loop.peer, s.loop.block);
  }

  lemma DroppedByte(s: Sys, e: Event, u: Text, content: seq<byte>, o: nat)
    requires Inv(s) && Enabled(s, e) && Tracked(s, u) && !Tracked(Next(s, e), u)
    requires ContentOf(s, u, content) && o < Reach(s.uris[u].size)
    ensures ByteRight(FileOf(Next(s, e).disk, u), content, o)
  {
    var b := BlockAt(s.uris[u].size, o);
    DroppedIsDone(s, e, u);
    var done := DoneOf(Next(s, e).done, u);
    assert b in multiset(done) && b in done;
    BlockByteRight(FileOf(s.disk, u), content, b, o);
  }

  lemma AllBytesRight(f: seq<byte>, content: seq<byte>)
    requires HoldsUpTo(f, content, |content|)
    ensures |f| >= |content| && f[..|content|] == content
  {
    assert |content| > 0 ==> ByteRight(f, content, |content| - 1);
    assert forall o | 0 <= o < |content| :: ByteRight(f, content, o) ==> f[o] == content[o];
  }

  /**
   * A file that a completion drops is on disk, byte for byte, as far as its blocks reach: over its whole
   * length for every size whose cut covers the file.
   */
  lemma CompletedFileIsTheSource(disk: map<Text, seq<byte>>, es: seq<Event>, e: Event, src: Version -> seq<byte>,
                                 u: Text)
    requires Run(Init(disk), es) && FaithfulRun(Init(disk), es, src)
    requires Enabled(Exec(Init(disk), es), e)
    requires Tracked(Exec(Init(disk), es), u) && !Tracked(Next(Exec(Init(disk), es), e), u)
    ensures var s := Exec(Init(disk), es);
            var f, content := FileOf(Next(s, e).disk, u), src(VersionOf(u, s.uris[u]));
            && HoldsUpTo(f, content, Reach(s.uris[u].size))
            && (WholeFileCut(s.uris[u].size) && |content| == s.uris[u].size ==>
                  |f| >= |content| && f[..|content|] == content)
  {
    ContentRun(Init(disk), es, src);
    var s := Exec(Init(disk), es);
    var content := src(VersionOf(u, s.uris[u]));
    forall o | 0 <= o < Reach(s.uris[u].size) ensures ByteRight(FileOf(Next(s, e).disk, u), content, o) {
      DroppedByte(s, e, u, content, o);
    }
    if WholeFileCut(s.uris[u].size) && |content| == s.uris[u].size {
      AllBytesRight(FileOf(Next(s, e).disk, u), content);
    }
  }
}
