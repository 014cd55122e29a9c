// RsSyncManager: which blocks of which files are open, in flight and with whom.
module Allocator {
  import opened Octets
  import opened Blocks

  datatype NetAddr = NetAddr(ip: u32, family: u16, port: u16)

  datatype SyncingRange = SyncingRange(peer: NetAddr, block: Block)

  /** The state of one file that is being fetched. It lives as a value in the map of the manager. */
  datatype SyncRs = SyncRs(uri: Text, size: u64, hash: Text, block: seq<Block>, owner: seq<NetAddr>,
                           syncing: seq<SyncingRange>, success: bool)

  type Files = map<Text, SyncRs>

  function Fresh(uri: Text, size: u64, hash: Text, peer: NetAddr): SyncRs {
    SyncRs(uri, size, hash, Cut(size), [peer], [], false)
  }

  /** The entry operator[] makes for an absent uri. Its size is whatever the memory held. */
  function Phantom(junk: u64): SyncRs { SyncRs([], junk, [], [], [], [], false) }

  /** operator[]: the entry of a uri, made on the spot when there is none. */
  function At(m: Files, uri: Text, junk: u64): SyncRs {
    if uri in m then m[uri] else Phantom(junk)
  }

  // What each operation does to one entry.

  function Announced(rs: SyncRs, peer: NetAddr, uri: Text, hash: Text, size: u64): (r: (SyncRs, bool)) {
    if rs.size < size then (Fresh(uri, size, hash, peer), true)
    else if rs.size > size || rs.hash != hash then (rs, false)
    else if peer in rs.owner then (rs, true)
    else (rs.(owner := rs.owner + [peer]), true)
  }

  function Assigned(rs: SyncRs, peer: NetAddr): (SyncRs, Block) {
    if rs.block != [] && peer in rs.owner then
      var b := rs.block[|rs.block| - 1];
      (rs.(block := rs.block[..|rs.block| - 1], syncing := rs.syncing + [SyncingRange(peer, b)]), b)
    else (rs, Block(0, 0))
  }

  /** The last place of r in s, or -1. */
  function LastOf(s: seq<SyncingRange>, r: SyncingRange): (i: int)
    ensures -1 <= i < |s|
    ensures i >= 0 ==> s[i] == r
    ensures i == -1 <==> r !in s
  {
    if s == [] then -1 else if s[|s| - 1] == r then |s| - 1 else LastOf(s[..|s| - 1], r)
  }

  function RemoveAt<X>(s: seq<X>, i: nat): seq<X>
    requires i < |s|
  {
    s[..i] + s[i + 1..]
  }

  /** The entry after its last r has left the ranges in flight. */
  function Dropped(rs: SyncRs, r: SyncingRange): SyncRs
    requires r in rs.syncing
  {
    rs.(syncing := RemoveAt(rs.syncing, LastOf(rs.syncing, r)))
  }

  function GaveBack(rs: SyncRs, peer: NetAddr, b: Block): SyncRs {
    var r := SyncingRange(peer, b);
    if r in rs.syncing then Dropped(rs, r).(block := rs.block + [b]) else rs
  }

  /** The blocks of one peer, last one first. */
  function BlocksWith(s: seq<SyncingRange>, peer: NetAddr): seq<Block> {
    if s == [] then []
    else (if s[|s| - 1].peer == peer then [s[|s| - 1].block] else []) + BlocksWith(s[..|s| - 1], peer)
  }

  function NotWith(s: seq<SyncingRange>, peer: NetAddr): seq<SyncingRange> {
    if s == [] then []
    else NotWith(s[..|s| - 1], peer) + (if s[|s| - 1].peer == peer then [] else [s[|s| - 1]])
  }

  function Without(s: seq<NetAddr>, peer: NetAddr): seq<NetAddr> {
    if s == [] then [] else Without(s[..|s| - 1], peer) + (if s[|s| - 1] == peer then [] else [s[|s| - 1]])
  }

  function GaveBackAll(rs: SyncRs, peer: NetAddr): SyncRs {
    rs.(block := rs.block + BlocksWith(rs.syncing, peer), syncing := NotWith(rs.syncing, peer),
        owner := Without(rs.owner, peer))
  }

  /** The entry once a block has arrived; none when that was the last one. */
  function Finished(rs: SyncRs, peer: NetAddr, b: Block): Option<SyncRs> {
    var r := SyncingRange(peer, b);
    if r !in rs.syncing then Some(rs)
    else if rs.block == [] && |rs.syncing| == 1 then None
    else Some(Dropped(rs, r))
  }

  // What each operation does to the map.

  function Register(m: Files, peer: NetAddr, uri: Text, hash: Text, size: u64): (Files, bool) {
    if uri !in m then (m[uri := Fresh(uri, size, hash, peer)], true)
    else var (rs, ok) := Announced(m[uri], peer, uri, hash, size); (m[uri := rs], ok)
  }

  function Assign(m: Files, peer: NetAddr, uri: Text, junk: u64): (Files, Block) {
    var (rs, b) := Assigned(At(m, uri, junk), peer);
    (m[uri := rs], b)
  }

  function GiveBack(m: Files, peer: NetAddr, b: Block, uri: Text, junk: u64): Files {
    m[uri := GaveBack(At(m, uri, junk), peer, b)]
  }

  function GiveBackAll(m: Files, peer: NetAddr, uri: Text, junk: u64): Files {
    m[uri := GaveBackAll(At(m, uri, junk), peer)]
  }

  function Finish(m: Files, peer: NetAddr, uri: Text, b: Block, junk: u64): Files {
    var r := Finished(At(m, uri, junk), peer, b);
    if r.Some? then m[uri := r.value] else m - {uri}
  }

  function Touch(m: Files, uri: Text, junk: u64): Files { m[uri := At(m, uri, junk)] }

  /** The manager. junk is the indeterminate size of an entry that a lookup has to make. */
  class RsSyncManager {
    var uriRs: Files

    constructor ()
      ensures uriRs == map[]
    {
      uriRs := map[];
    }

    method NewSyncRs(uri: Text, size: u64, hash: Text, owner: NetAddr) returns (rs: SyncRs)
      ensures rs == Fresh(uri, size, hash, owner)
    {
      var block := CutBlocks(size);
      rs := SyncRs(uri, size, hash, block, [owner], [], false);
    }

    method RegSyncRs(peer: NetAddr, uri: Text, hash: Text, size: u64) returns (ok: bool)
      modifies this
      ensures (uriRs, ok) == Register(old(uriRs), peer, uri, hash, size)
    {
      if uri !in uriRs {
        var rs := NewSyncRs(uri, size, hash, peer);
        uriRs := uriRs[uri := rs];
        return true;
      }
      ok := UpdateSyncRs(peer, uri, hash, size);
    }

    method UpdateSyncRs(peer: NetAddr, uri: Text, hash: Text, size: u64) returns (ok: bool)
      modifies this
      ensures (uriRs, ok) == Register(old(uriRs), peer, uri, hash, size)
    {
      if uri !in uriRs {
        var rs := NewSyncRs(uri, size, hash, peer);
        uriRs := uriRs[uri := rs];
        return true;
      }
      ghost var was := uriRs;
      var entry := uriRs[uri];
      assert was[uri := entry] == was;
      if entry.size < size {
        var rs := NewSyncRs(uri, size, hash, peer);
        uriRs := uriRs[uri := rs];
        return true;
      } else if entry.size > size {
        return false;
      } else if entry.hash != hash {
        return false;
      }
      for i := 0 to |entry.owner|
        invariant peer !in entry.owner[..i]
      {
        if entry.owner[i] == peer {
          return true;
        }
      }
      uriRs := uriRs[uri := entry.(owner := entry.owner + [peer])];
      return true;
    }

    method RegReqSyncRsAuto(peer: NetAddr, uri: Text, junk: u64) returns (b: Block)
      modifies this
      ensures (uriRs, b) == Assign(old(uriRs), peer, uri, junk)
    {
      var rs := At(uriRs, uri, junk);
      b := Block(0, 0);
      if |rs.block| > 0 {
        for i := 0 to |rs.owner|
          invariant peer !in rs.owner[..i]
          invariant uriRs == old(uriRs)
        {
          if rs.owner[i] == peer {
            b := rs.block[|rs.block| - 1];
            var req := SyncingRange(peer, b);
            rs := rs.(block := rs.block[..|rs.block| - 1], syncing := rs.syncing + [req]);
            uriRs := uriRs[uri := rs];
            return;
          }
        }
      }
      uriRs := uriRs[uri := rs];
    }

    method UnregReqSyncRsByBlock(peer: NetAddr, b: Block, uri: Text, junk: u64)
      modifies this
      ensures uriRs == GiveBack(old(uriRs), peer, b, uri, junk)
    {
      var rs := At(uriRs, uri, junk);
      var found := FindLast(rs.syncing, peer, b);
      if found >= 0 {
        rs := rs.(block := rs.block + [rs.syncing[found].block], syncing := RemoveAt(rs.syncing, found));
      }
      uriRs := uriRs[uri := rs];
    }

    method UnregAllReqSyncRsByPeer(peer: NetAddr, uri: Text, junk: u64)
      modifies this
      ensures uriRs == GiveBackAll(old(uriRs), peer, uri, junk)
    {
      var rs := At(uriRs, uri, junk);
      var block, syncing := TakeBack(rs.block, rs.syncing, peer);
      var owner := RemoveOwner(rs.owner, peer);
      uriRs := uriRs[uri := rs.(block := block, syncing := syncing, owner := owner)];
    }

    /** The number of owners. Asking for a file that is not there counts none, and makes a phantom of it. */
    method GetOwnerSize(uri: Text, junk: u64) returns (n: nat)
      modifies this
      ensures uri in old(uriRs) ==> uriRs == old(uriRs) && n == |old(uriRs)[uri].owner|
      ensures uri !in old(uriRs) ==> n == 0 && uriRs == old(uriRs)[uri := Phantom(junk)]
    {
      var rs := At(uriRs, uri, junk);
      if uri !in uriRs {
        uriRs := uriRs[uri := rs];
      }
      n := |rs.owner|;
    }

    /** The number of open blocks. Asking for a file that is not there counts none, and makes a phantom of it. */
    method GetBlockSize(uri: Text, junk: u64) returns (n: nat)
      modifies this
      ensures uri in old(uriRs) ==> uriRs == old(uriRs) && n == |old(uriRs)[uri].block|
      ensures uri !in old(uriRs) ==> n == 0 && uriRs == old(uriRs)[uri := Phantom(junk)]
    {
      var rs := At(uriRs, uri, junk);
      if uri !in uriRs {
        uriRs := uriRs[uri := rs];
      }
      n := |rs.block|;
    }

    /** The number of ranges in flight. Asking for a file that is not there counts none, and makes a phantom of it. */
    method GetSyncingSize(uri: Text, junk: u64) returns (n: nat)
      modifies this
      ensures uri in old(uriRs) ==> uriRs == old(uriRs) && n == |old(uriRs)[uri].syncing|
      ensures uri !in old(uriRs) ==> n == 0 && uriRs == old(uriRs)[uri := Phantom(junk)]
    {
      var rs := At(uriRs, uri, junk);
      if uri !in uriRs {
        uriRs := uriRs[uri := rs];
      }
      n := |rs.syncing|;
    }

    method SyncingRangeDone(peer: NetAddr, uri: Text, b: Block, junk: u64)
      modifies this
      ensures uriRs == Finish(old(uriRs), peer, uri, b, junk)
    {
      var rs := At(uriRs, uri, junk);
      var found := FindLast(rs.syncing, peer, b);
      if found >= 0 {
        rs := rs.(syncing := RemoveAt(rs.syncing, found));
        if |rs.block| == 0 && |rs.syncing| == 0 {
          rs := rs.(success := true);
          uriRs := uriRs[uri := rs];
          uriRs := uriRs - {uri};
          return;
        }
      }
      uriRs := uriRs[uri := rs];
    }
  }

  /** The reverse search of both completion and return: the last range of this peer and block. */
  method FindLast(s: seq<SyncingRange>, peer: NetAddr, b: Block) returns (found: int)
    ensures found == LastOf(s, SyncingRange(peer, b))
  {
    found := |s| - 1;
    assert s[..|s|] == s;
    while found >= 0
      invariant -1 <= found < |s|
      invariant LastOf(s[..found + 1], SyncingRange(peer, b)) == LastOf(s, SyncingRange(peer, b))
    {
      if s[found].peer == peer && s[found].block == b {
        return;
      }
      assert s[..found + 1][..found] == s[..found];
      found := found - 1;
    }
  }

  /** Walks the ranges in flight from the back and moves those of one peer to the open blocks. */
  method TakeBack(block0: seq<Block>, syncing0: seq<SyncingRange>, peer: NetAddr)
    returns (block: seq<Block>, syncing: seq<SyncingRange>)
    ensures block == block0 + BlocksWith(syncing0, peer)
    ensures syncing == NotWith(syncing0, peer)
  {
    block, syncing := block0, syncing0;
    ghost var tail: seq<SyncingRange> := [];
    var i := |syncing| - 1;
    assert syncing0[..|syncing0|] == syncing0;
    while i >= 0
      invariant -1 <= i < |syncing0|
      invariant syncing == syncing0[..i + 1] + tail
      invariant block + BlocksWith(syncing0[..i + 1], peer) == block0 + BlocksWith(syncing0, peer)
      invariant NotWith(syncing0[..i + 1], peer) + tail == NotWith(syncing0, peer)
    {
      ghost var front := syncing0[..i + 1];
      assert front[..i] == syncing0[..i];
      var rng := syncing[i];
      if rng.peer == peer {
        block := block + [rng.block];
        syncing := RemoveAt(syncing, i);
      } else {
        tail := [rng] + tail;
      }
      i := i - 1;
    }
  }

  method RemoveOwner(owner0: seq<NetAddr>, peer: NetAddr) returns (owner: seq<NetAddr>)
    ensures owner == Without(owner0, peer)
  {
    owner := owner0;
    ghost var tail: seq<NetAddr> := [];
    var i := |owner| - 1;
    assert owner0[..|owner0|] == owner0;
    while i >= 0
      invariant -1 <= i < |owner0|
      invariant owner == owner0[..i + 1] + tail
      invariant Without(owner0[..i + 1], peer) + tail == Without(owner0, peer)
    {
      ghost var front := owner0[..i + 1];
      assert front[..i] == owner0[..i];
      var o := owner[i];
      if o == peer {
        owner := RemoveAt(owner, i);
      } else {
        tail := [o] + tail;
      }
      i := i - 1;
    }
  }

  // Conservation.

  ghost function BlocksOf(s: seq<SyncingRange>): multiset<Block> {
    if s == [] then multiset{} else BlocksOf(s[..|s| - 1]) + multiset{s[|s| - 1].block}
  }

  /** Every block the entry accounts for, open or in flight. */
  ghost function Held(rs: SyncRs): multiset<Block> { multiset(rs.block) + BlocksOf(rs.syncing) }

  lemma BlocksOfSnoc(s: seq<SyncingRange>, r: SyncingRange)
    ensures BlocksOf(s + [r]) == BlocksOf(s) + multiset{r.block}
  {
    assert (s + [r])[..|s|] == s;
  }

  lemma {:induction false} BlocksOfRemove(s: seq<SyncingRange>, i: nat)
    requires i < |s|
    ensures BlocksOf(RemoveAt(s, i)) + multiset{s[i].block} == BlocksOf(s)
    decreases |s|
  {
    var init, last := s[..|s| - 1], s[|s| - 1];
    if i == |s| - 1 {
      assert RemoveAt(s, i) == init;
    } else {
      RemoveSnoc(s, i);
      BlocksOfRemove(init, i);
      BlocksOfSnoc(RemoveAt(init, i), last);
      TwoMore(BlocksOf(RemoveAt(init, i)), s[i].block, last.block);
    }
  }

  lemma RemoveSnoc(s: seq<SyncingRange>, i: nat)
    requires i < |s| - 1
    ensures RemoveAt(s, i) == RemoveAt(s[..|s| - 1], i) + [s[|s| - 1]]
  {
  }

  lemma TwoMore(bs: multiset<Block>, a: Block, b: Block)
    ensures (bs + multiset{a}) + multiset{b} == (bs + multiset{b}) + multiset{a}
  {
  }

  lemma {:induction false} BlocksOfSplit(s: seq<SyncingRange>, peer: NetAddr)
    ensures BlocksOf(NotWith(s, peer)) + multiset(BlocksWith(s, peer)) == BlocksOf(s)
    decreases |s|
  {
    if s != [] {
      var init, last := s[..|s| - 1], s[|s| - 1];
      var kept, back := NotWith(init, peer), BlocksWith(init, peer);
      BlocksOfSplit(init, peer);
      if last.peer == peer {
        assert NotWith(s, peer) == kept && BlocksWith(s, peer) == [last.block] + back;
        MultisetCons(last.block, back);
      } else {
        assert NotWith(s, peer) == kept + [last] && BlocksWith(s, peer) == back;
        BlocksOfSnoc(kept, last);
      }
    }
  }

  lemma MultisetCons(b: Block, bs: seq<Block>)
    ensures multiset([b] + bs) == multiset{b} + multiset(bs)
  {
  }

  lemma AssignedConserves(rs: SyncRs, peer: NetAddr)
    ensures Held(Assigned(rs, peer).0) == Held(rs)
  {
    if rs.block != [] && peer in rs.owner {
      var b := rs.block[|rs.block| - 1];
      assert rs.block == rs.block[..|rs.block| - 1] + [b];
      BlocksOfSnoc(rs.syncing, SyncingRange(peer, b));
    }
  }

  lemma GaveBackConserves(rs: SyncRs, peer: NetAddr, b: Block)
    ensures Held(GaveBack(rs, peer, b)) == Held(rs)
  {
    var r := SyncingRange(peer, b);
    if r in rs.syncing {
      BlocksOfRemove(rs.syncing, LastOf(rs.syncing, r));
    }
  }

  lemma GaveBackAllConserves(rs: SyncRs, peer: NetAddr)
    ensures Held(GaveBackAll(rs, peer)) == Held(rs)
  {
    BlocksOfSplit(rs.syncing, peer);
  }

  /** A completion takes exactly the finished block out, or nothing when no such range is in flight. */
  lemma FinishedConserves(rs: SyncRs, peer: NetAddr, b: Block)
    ensures var left := if Finished(rs, peer, b).Some? then Held(Finished(rs, peer, b).value) else multiset{};
            left + (if SyncingRange(peer, b) in rs.syncing then multiset{b} else multiset{}) == Held(rs)
  {
    var r := SyncingRange(peer, b);
    if r in rs.syncing {
      var i := LastOf(rs.syncing, r);
      BlocksOfRemove(rs.syncing, i);
      if rs.block == [] && |rs.syncing| == 1 {
        assert RemoveAt(rs.syncing, i) == [];
      }
    }
  }

  // Who may hold a block.

  lemma {:induction false} NotWithMembers(s: seq<SyncingRange>, peer: NetAddr, r: SyncingRange)
    ensures r in NotWith(s, peer) <==> r in s && r.peer != peer
    decreases |s|
  {
    if s != [] {
      NotWithMembers(s[..|s| - 1], peer, r);
      assert s == s[..|s| - 1] + [s[|s| - 1]];
    }
  }

  lemma {:induction false} WithoutMembers(s: seq<NetAddr>, peer: NetAddr, p: NetAddr)
    ensures p in Without(s, peer) <==> p in s && p != peer
    decreases |s|
  {
    if s != [] {
      WithoutMembers(s[..|s| - 1], peer, p);
      assert s == s[..|s| - 1] + [s[|s| - 1]];
    }
  }

  ghost predicate Distinct<X>(s: seq<X>) { forall i, j | 0 <= i < j < |s| :: s[i] != s[j] }

  lemma {:induction false} WithoutDistinct(s: seq<NetAddr>, peer: NetAddr)
    requires Distinct(s)
    ensures Distinct(Without(s, peer))
    decreases |s|
  {
    if s != [] {
      var init, last := s[..|s| - 1], s[|s| - 1];
      WithoutDistinct(init, peer);
      WithoutMembers(init, peer, last);
    }
  }

  lemma {:induction false} NotWithLength(s: seq<SyncingRange>, peer: NetAddr)
    ensures |NotWith(s, peer)| + |BlocksWith(s, peer)| == |s|
    decreases |s|
  {
    if s != [] {
      NotWithLength(s[..|s| - 1], peer);
    }
  }

  // What the operations mean for a peer.

  /**
   * An announcement is answered with true if and only if its peer owns exactly the announced version afterwards;
   * if not, nothing has changed. No other file is touched.
   */
  lemma RegisterAnswersIff(m: Files, peer: NetAddr, uri: Text, hash: Text, size: u64)
    ensures var (m', ok) := Register(m, peer, uri, hash, size);
            && uri in m'
            && (ok <==> m'[uri].size == size && m'[uri].hash == hash && peer in m'[uri].owner)
            && (!ok ==> m' == m)
            && (forall u | u != uri :: (u in m' <==> u in m) && (u in m ==> m'[u] == m[u]))
  {
  }

  /**
   * Whoever announces the version that is under way joins its owners, at the end unless he is one already, and
   * disturbs nothing else, whatever is in flight.
   */
  lemma AnnouncementJoins(rs: SyncRs, peer: NetAddr, uri: Text)
    ensures var (rs', ok) := Announced(rs, peer, uri, rs.hash, rs.size);
            && ok && peer in rs'.owner
            && rs.owner <= rs'.owner && |rs'.owner| == |rs.owner| + (if peer in rs.owner then 0 else 1)
            && rs'.block == rs.block && rs'.syncing == rs.syncing && rs'.uri == rs.uri
            && rs'.size == rs.size && rs'.hash == rs.hash && rs'.success == rs.success
  {
  }

  /** A larger version starts over with all its blocks open and its peer alone; any other one is ignored. */
  lemma OtherVersions(rs: SyncRs, peer: NetAddr, uri: Text, hash: Text, size: u64)
    ensures size > rs.size ==>
      Announced(rs, peer, uri, hash, size) == (SyncRs(uri, size, hash, Cut(size), [peer], [], false), true)
    ensures size < rs.size || (size == rs.size && hash != rs.hash) ==>
      Announced(rs, peer, uri, hash, size) == (rs, false)
  {
  }

  /** An owner is given the block that became open last. */
  lemma AssignedLast(rs: SyncRs, peer: NetAddr, rest: seq<Block>, b: Block)
    requires rs.block == rest + [b] && peer in rs.owner
    ensures Assigned(rs, peer) == (rs.(block := rest, syncing := rs.syncing + [SyncingRange(peer, b)]), b)
  {
  }

  /** Nobody else is given anything, and nobody when no block is open. */
  lemma AssignedNothing(rs: SyncRs, peer: NetAddr)
    requires rs.block == [] || peer !in rs.owner
    ensures Assigned(rs, peer) == (rs, Block(0, 0))
  {
  }

  /** A block that is returned is the next one to be assigned, and only its range leaves the flight. */
  lemma GivenBackIsNext(rs: SyncRs, peer: NetAddr, b: Block, front: seq<SyncingRange>, back: seq<SyncingRange>)
    requires var r := SyncingRange(peer, b); rs.syncing == front + [r] + back && r !in back
    ensures GaveBack(rs, peer, b) == rs.(block := rs.block + [b], syncing := front + back)
  {
    LastPlace(front, SyncingRange(peer, b), back);
    assert RemoveAt(rs.syncing, |front|) == front + back;
  }

  lemma {:induction false} LastPlace(front: seq<SyncingRange>, r: SyncingRange, back: seq<SyncingRange>)
    requires r !in back
    ensures LastOf(front + [r] + back, r) == |front|
    decreases |back|
  {
    var s := front + [r] + back;
    if back == [] {
      assert s[|s| - 1] == r;
    } else {
      assert s[..|s| - 1] == front + [r] + back[..|back| - 1];
      LastPlace(front, r, back[..|back| - 1]);
    }
  }

  /** A completion takes the same range out and leaves the open blocks alone. */
  lemma FinishedTakesRange(rs: SyncRs, peer: NetAddr, b: Block, front: seq<SyncingRange>, back: seq<SyncingRange>)
    requires var r := SyncingRange(peer, b); rs.syncing == front + [r] + back && r !in back
    ensures Finished(rs, peer, b)
         == if rs.block == [] && front == [] && back == [] then None else Some(rs.(syncing := front + back))
  {
    LastPlace(front, SyncingRange(peer, b), back);
    assert RemoveAt(rs.syncing, |front|) == front + back;
  }

  /** Neither happens without such a range. */
  lemma UnmatchedChangesNothing(rs: SyncRs, peer: NetAddr, b: Block)
    requires SyncingRange(peer, b) !in rs.syncing
    ensures GaveBack(rs, peer, b) == rs && Finished(rs, peer, b) == Some(rs)
  {
  }

  /**
   * When a peer is given up, its ranges come back one by one, the latest first, so that the oldest of them is the
   * next one to be assigned.
   */
  lemma {:induction false} ReturnedLatestFirst(s: seq<SyncingRange>, peer: NetAddr, r: SyncingRange)
    ensures r.peer == peer ==> BlocksWith([r] + s, peer) == BlocksWith(s, peer) + [r.block]
    ensures r.peer != peer ==> BlocksWith([r] + s, peer) == BlocksWith(s, peer)
    decreases |s|
  {
    var all := [r] + s;
    if s == [] {
      assert all[..0] == [] && all[0] == r;
    } else {
      assert all[..|all| - 1] == [r] + s[..|s| - 1] && all[|all| - 1] == s[|s| - 1];
      ReturnedLatestFirst(s[..|s| - 1], peer, r);
    }
  }

  /** So the oldest range of the peer, behind ranges of others, is the next one, and what was open stays in front. */
  lemma OldestIsNext(rs: SyncRs, peer: NetAddr, b: Block, front: seq<SyncingRange>, rest: seq<SyncingRange>)
    requires rs.syncing == front + ([SyncingRange(peer, b)] + rest) && forall r | r in front :: r.peer != peer
    ensures var block := GaveBackAll(rs, peer).block;
            rs.block <= block && |block| > |rs.block| && block[|block| - 1] == b
  {
    OldestLast(front, peer, b, rest);
  }

  lemma {:induction false} OldestLast(front: seq<SyncingRange>, peer: NetAddr, b: Block, rest: seq<SyncingRange>)
    requires forall r | r in front :: r.peer != peer
    ensures BlocksWith(front + ([SyncingRange(peer, b)] + rest), peer) == BlocksWith(rest, peer) + [b]
    decreases |front|
  {
    var s := [SyncingRange(peer, b)] + rest;
    if front == [] {
      assert front + s == s;
      ReturnedLatestFirst(rest, peer, SyncingRange(peer, b));
    } else {
      assert front[0] in front;
      assert front + s == [front[0]] + (front[1..] + s);
      OldestLast(front[1..], peer, b, rest);
      ReturnedLatestFirst(front[1..] + s, peer, front[0]);
    }
  }

  /** All others keep their ranges and their places among the owners. */
  lemma {:induction false} OthersKeepOrder(s: seq<SyncingRange>, o: seq<NetAddr>, peer: NetAddr)
    requires forall r | r in s :: r.peer != peer
    requires peer !in o
    ensures NotWith(s, peer) == s && BlocksWith(s, peer) == [] && Without(o, peer) == o
    decreases |s| + |o|
  {
    if s != [] {
      assert s == s[..|s| - 1] + [s[|s| - 1]];
      OthersKeepOrder(s[..|s| - 1], o, peer);
    } else if o != [] {
      assert o == o[..|o| - 1] + [o[|o| - 1]];
      OthersKeepOrder(s, o[..|o| - 1], peer);
    }
  }
}
