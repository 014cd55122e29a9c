// The entries that lookups of absent files leave behind, and what they do to later announcements.
module Phantoms {
  import opened Octets
  import opened Blocks
  import opened Allocator
  import opened Machine
  import opened Handlers
  import opened Downloads
  import opened Progress
  import opened LateReplies

  /** A phantom whose indeterminate size happens to be n. */
  ghost predicate IsPhantom(s: Sys, u: Text, n: u64) { u in s.uris && PhantomEntry(s.uris[u], n) }

  predicate PhantomEntry(rs: SyncRs, n: u64) { rs.uri == [] && rs.block == [] && rs.syncing == [] && rs.size == n }

  lemma PhantomOfInv(s: Sys, u: Text)
    requires Inv(s) && u in s.uris && !Tracked(s, u)
    ensures IsPhantom(s, u, s.uris[u].size)
  {
    assert EntryOk(u, s.uris[u], DoneOf(s.done, u), s.said);
  }

  /** An announcement gets through to the file if and only if it is larger than the junk. */
  lemma PhantomAnnouncedIff(s: Sys, e: Event, n: u64)
    requires Enabled(s, e) && e.Announce? && IsPhantom(s, e.uri, n)
    ensures Tracked(Next(s, e), e.uri) <==> e.size > n
  {
  }

  /** No operation makes a phantom anything else. */
  lemma PhantomEntryStays(rs: SyncRs, n: u64, peer: NetAddr, b: Block)
    requires PhantomEntry(rs, n)
    ensures PhantomEntry(Assigned(rs, peer).0, n) && PhantomEntry(GaveBack(rs, peer, b), n)
    ensures PhantomEntry(GaveBackAll(rs, peer), n)
    ensures Finished(rs, peer, b).Some? && PhantomEntry(Finished(rs, peer, b).value, n)
  {
  }

  lemma PhantomStep(s: Sys, e: Event, u: Text, n: u64)
    requires Enabled(s, e) && IsPhantom(s, u, n) && (e.Announce? && e.uri == u ==> e.size <= n)
    ensures IsPhantom(Next(s, e), u, n)
  {
    match e {
      case Complete(_) => PhantomEntryStays(s.uris[u], n, s.loop.peer, s.loop.block);
      case SaveFailed(_) => PhantomEntryStays(s.uris[u], n, s.loop.peer, s.loop.block);
      case Allot(_) => PhantomEntryStays(s.uris[u], n, s.worker.peer, Block(0, 0));
      case SendFailed(_) => PhantomEntryStays(s.uris[u], n, s.worker.peer, Block(0, 0));
      case _ =>
    }
  }

  /** A phantom stays one, of the same size, until a larger announcement. */
  lemma {:induction false} PhantomStays(s: Sys, es: seq<Event>, u: Text, n: u64)
    requires Run(s, es) && IsPhantom(s, u, n)
    requires forall e | e in es && e.Announce? && e.uri == u :: e.size <= n
    ensures IsPhantom(Exec(s, es), u, n)
    decreases |es|
  {
    if es != [] {
      assert es[0] in es;
      PhantomStep(s, es[0], u, n);
      PhantomStays(Next(s, es[0]), es[1..], u, n);
    }
  }

  /**
   * In every reachable state, an entry that is not tracked is a phantom, and the file stays untracked until an
   * announcement exceeds the junk.
   */
  lemma UntrackedStays(disk: map<Text, seq<byte>>, before: seq<Event>, es: seq<Event>, u: Text)
    requires Run(Init(disk), before) && Run(Exec(Init(disk), before), es)
    requires var s := Exec(Init(disk), before);
             && u in s.uris && !Tracked(s, u)
             && forall e | e in es && e.Announce? && e.uri == u :: e.size <= s.uris[u].size
    ensures IsPhantom(Exec(Exec(Init(disk), before), es), u, Exec(Init(disk), before).uris[u].size)
  {
    var s := Exec(Init(disk), before);
    RunOk(Init(disk), before);
    PhantomOfInv(s, u);
    PhantomStays(s, es, u, s.uris[u].size);
  }

  /** With the largest junk of all, no run ever tracks the file again. */
  lemma NeverTrackedAgain(s: Sys, es: seq<Event>, u: Text)
    requires Run(s, es) && IsPhantom(s, u, TWO_64 - 1)
    ensures !Tracked(Exec(s, es), u)
  {
    PhantomStays(s, es, u, TWO_64 - 1);
  }

  /** A task for the only file is pending when the last reply comes; it runs when the file is gone. */
  lemma PhantomLeft(s: Sys, p: NetAddr, u: Text, content: seq<byte>, junk: u64) returns (es: seq<Event>)
    requires s.loop.Waiting? && s.worker.Idle? && s.tasks == [] && u != [] && |content| == BLOCK_SIZE
    requires OnlyFile(s, u) && u in s.uris && s.uris[u].block == [] && s.uris[u].syncing == [SyncingRange(p, FIRST)]
    ensures Run(s, es) && Produced(s, es) && IsPhantom(Exec(s, es), u, junk)
  {
    OnlyFileRefreshed(s, u);
    var t := s.(tasks := [u]);
    assert Exec(s, AddsFor(s, u)) == t;
    var answered := OnlyFileAnswered(t, p, u, FIRST, content);
    OnlyRangeDone(t.uris, p, u, FIRST);
    ProducedThen(s, AddsFor(s, u), answered);
    var looked := LooksInVain(Exec(t, answered), u, junk);
    ProducedThen(s, AddsFor(s, u) + answered, looked);
    es := AddsFor(s, u) + answered + looked;
  }

  lemma LooksInVain(s: Sys, u: Text, junk: u64) returns (es: seq<Event>)
    requires s.worker.Idle? && s.tasks != [] && s.tasks[0] == u && u !in s.uris
    ensures Run(s, es) && Produced(s, es) && IsPhantom(Exec(s, es), u, junk)
  {
    es := [TakeTask, CopyOwners(junk)];
    RunTwo(s, TakeTask, CopyOwners(junk));
    WorkerProduces(s, es);
  }

  /** Such a run, from the start: a file is completed, and can then never be fetched in a newer version. */
  lemma CompletedOnceForAll(p: NetAddr, u: Text, hash: Text, content: seq<byte>) returns (es: seq<Event>)
    requires u != [] && |content| == BLOCK_SIZE
    ensures Run(Init(map[]), es) && Produced(Init(map[]), es) && IsPhantom(Exec(Init(map[]), es), u, TWO_64 - 1)
    ensures Announce(p, u, hash, |content|) in es
    ensures forall fs | Run(Exec(Init(map[]), es), fs) :: !Tracked(Exec(Exec(Init(map[]), es), fs), u)
  {
    var ask := SmallAsked(p, u, hash);
    var more := PhantomLeft(Exec(Init(map[]), ask), p, u, content, TWO_64 - 1);
    ProducedThen(Init(map[]), ask, more);
    es := ask + more;
    var t := Exec(Init(map[]), es);
    forall fs | Run(t, fs) ensures !Tracked(Exec(t, fs), u) {
      NeverTrackedAgain(t, fs, u);
    }
  }
}
