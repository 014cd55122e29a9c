// What a sequence of announcements of one file adds up to.
module Announcements {
  import opened Octets
  import opened Blocks
  import opened Allocator

  datatype Ann = Ann(peer: NetAddr, hash: Text, size: u64)

  function RegisterAll(m: Files, uri: Text, anns: seq<Ann>): Files {
    if anns == [] then m
    else
      var a := anns[|anns| - 1];
      Register(RegisterAll(m, uri, anns[..|anns| - 1]), a.peer, uri, a.hash, a.size).0
  }

  /** Announcement i is the first one of its size, and no other is larger. */
  ghost predicate FirstLargest(anns: seq<Ann>, i: nat) {
    && i < |anns|
    && (forall j | 0 <= j < |anns| :: anns[j].size <= anns[i].size)
    && (forall j | 0 <= j < i :: anns[j].size < anns[i].size)
  }

  predicate Offers(a: Ann, peer: NetAddr, size: u64, hash: Text) {
    a == Ann(peer, hash, size)
  }

  /** Announcement i is the first one in which this peer offers this version. */
  ghost predicate FirstOffer(anns: seq<Ann>, i: nat, peer: NetAddr, size: u64, hash: Text) {
    i < |anns| && Offers(anns[i], peer, size, hash) && forall j | 0 <= j < i :: !Offers(anns[j], peer, size, hash)
  }

  ghost predicate HasFirstOffer(anns: seq<Ann>, peer: NetAddr, size: u64, hash: Text) {
    exists i: nat :: FirstOffer(anns, i, peer, size, hash)
  }

  /** The peers that offer a version, each once, in the order of their first offers. */
  ghost predicate OwnersInOrder(owner: seq<NetAddr>, anns: seq<Ann>, size: u64, hash: Text) {
    && (forall k | 0 <= k < |owner| :: HasFirstOffer(anns, owner[k], size, hash))
    && (forall k, l, i: nat, j: nat | 0 <= k < l < |owner| && FirstOffer(anns, i, owner[k], size, hash)
                            && FirstOffer(anns, j, owner[l], size, hash) :: i < j)
    && (forall i | 0 <= i < |anns| && anns[i].size == size && anns[i].hash == hash :: anns[i].peer in owner)
  }

  /** The entry says exactly what the announcements add up to, and nothing of it has been handed out. */
  ghost predicate Folded(rs: SyncRs, uri: Text, anns: seq<Ann>) {
    && (exists i: nat :: FirstLargest(anns, i) && rs.size == anns[i].size && rs.hash == anns[i].hash)
    && OwnersInOrder(rs.owner, anns, rs.size, rs.hash)
    && rs == SyncRs(uri, rs.size, rs.hash, Cut(rs.size), rs.owner, [], false)
  }

  lemma FirstOfferSnoc(anns: seq<Ann>, a: Ann, i: nat, peer: NetAddr, size: u64, hash: Text)
    ensures i < |anns| ==> (FirstOffer(anns + [a], i, peer, size, hash) <==> FirstOffer(anns, i, peer, size, hash))
    ensures FirstOffer(anns + [a], |anns|, peer, size, hash)
       <==> Offers(a, peer, size, hash) && forall j | 0 <= j < |anns| :: !Offers(anns[j], peer, size, hash)
  {
    var bs := anns + [a];
    assert forall j | 0 <= j < |anns| :: bs[j] == anns[j];
    assert bs[|anns|] == a;
  }

  /** A further announcement that does not offer the version changes nothing about its owners. */
  lemma OwnersIgnore(owner: seq<NetAddr>, anns: seq<Ann>, a: Ann, size: u64, hash: Text)
    requires OwnersInOrder(owner, anns, size, hash)
    requires a.size == size && a.hash == hash ==> a.peer in owner
    ensures OwnersInOrder(owner, anns + [a], size, hash)
  {
    var bs := anns + [a];
    forall k | 0 <= k < |owner| ensures HasFirstOffer(bs, owner[k], size, hash) {
      var i: nat :| FirstOffer(anns, i, owner[k], size, hash);
      FirstOfferSnoc(anns, a, i, owner[k], size, hash);
      assert FirstOffer(bs, i, owner[k], size, hash);
    }
    forall k, l, i: nat, j: nat | 0 <= k < l < |owner| && FirstOffer(bs, i, owner[k], size, hash)
                        && FirstOffer(bs, j, owner[l], size, hash)
      ensures i < j
    {
      FirstOfferIsOld(owner, anns, a, size, hash, k, i);
      FirstOfferIsOld(owner, anns, a, size, hash, l, j);
    }
    forall i | 0 <= i < |bs| && bs[i].size == size && bs[i].hash == hash ensures bs[i].peer in owner {
      if i < |anns| {
        assert bs[i] == anns[i];
      }
    }
  }

  lemma FirstOfferIsOld(owner: seq<NetAddr>, anns: seq<Ann>, a: Ann, size: u64, hash: Text, k: nat, i: nat)
    requires OwnersInOrder(owner, anns, size, hash) && k < |owner|
    requires FirstOffer(anns + [a], i, owner[k], size, hash)
    ensures i < |anns| && FirstOffer(anns, i, owner[k], size, hash)
  {
    var first: nat :| FirstOffer(anns, first, owner[k], size, hash);
    assert (anns + [a])[first] == anns[first];
    FirstOfferSnoc(anns, a, i, owner[k], size, hash);
  }

  /** A new peer that offers the version goes to the end of the list. */
  lemma OwnersGrow(owner: seq<NetAddr>, anns: seq<Ann>, a: Ann, size: u64, hash: Text)
    requires OwnersInOrder(owner, anns, size, hash)
    requires a.size == size && a.hash == hash && a.peer !in owner
    ensures OwnersInOrder(owner + [a.peer], anns + [a], size, hash)
  {
    var bs, grown, n := anns + [a], owner + [a.peer], |anns|;
    forall j | 0 <= j < n ensures !Offers(anns[j], a.peer, size, hash) {
    }
    FirstOfferSnoc(anns, a, n, a.peer, size, hash);
    forall k | 0 <= k < |grown| ensures HasFirstOffer(bs, grown[k], size, hash) {
      if k < |owner| {
        var i: nat :| FirstOffer(anns, i, owner[k], size, hash);
        FirstOfferSnoc(anns, a, i, owner[k], size, hash);
        assert FirstOffer(bs, i, grown[k], size, hash);
      } else {
        assert FirstOffer(bs, n, grown[k], size, hash);
      }
    }
    forall k, l, i: nat, j: nat | 0 <= k < l < |grown| && FirstOffer(bs, i, grown[k], size, hash)
                        && FirstOffer(bs, j, grown[l], size, hash)
      ensures i < j
    {
      FirstOfferIsOld(owner, anns, a, size, hash, k, i);
      if l < |owner| {
        FirstOfferIsOld(owner, anns, a, size, hash, l, j);
      } else {
        FirstOfferSnoc(anns, a, j, a.peer, size, hash);
      }
    }
    forall i | 0 <= i < |bs| && bs[i].size == size && bs[i].hash == hash ensures bs[i].peer in grown {
      if i < |anns| {
        assert bs[i] == anns[i];
      }
    }
  }

  /** The owners of a version no one has offered before. */
  lemma OwnersStart(anns: seq<Ann>, a: Ann)
    requires forall i | 0 <= i < |anns| :: anns[i].size < a.size
    ensures OwnersInOrder([a.peer], anns + [a], a.size, a.hash)
  {
    FirstOfferSnoc(anns, a, |anns|, a.peer, a.size, a.hash);
    var bs := anns + [a];
    assert FirstOffer(bs, |anns|, [a.peer][0], a.size, a.hash);
    assert forall i | 0 <= i < |anns| :: bs[i] == anns[i];
  }

  lemma LargerWins(rs: SyncRs, uri: Text, anns: seq<Ann>, a: Ann)
    requires Folded(rs, uri, anns) && rs.size < a.size
    ensures Folded(Fresh(uri, a.size, a.hash, a.peer), uri, anns + [a])
  {
    var i: nat :| FirstLargest(anns, i) && rs.size == anns[i].size && rs.hash == anns[i].hash;
    assert forall j | 0 <= j < |anns| :: (anns + [a])[j] == anns[j];
    assert FirstLargest(anns + [a], |anns|);
    OwnersStart(anns, a);
  }

  lemma VersionStays(rs: SyncRs, uri: Text, anns: seq<Ann>, a: Ann, owner: seq<NetAddr>)
    requires Folded(rs, uri, anns) && a.size <= rs.size
    requires OwnersInOrder(owner, anns + [a], rs.size, rs.hash)
    ensures Folded(rs.(owner := owner), uri, anns + [a])
  {
    var i: nat :| FirstLargest(anns, i) && rs.size == anns[i].size && rs.hash == anns[i].hash;
    assert forall j | 0 <= j < |anns| :: (anns + [a])[j] == anns[j];
    assert FirstLargest(anns + [a], i);
  }

  lemma FoldedSnoc(rs: SyncRs, uri: Text, anns: seq<Ann>, a: Ann)
    requires Folded(rs, uri, anns)
    ensures Folded(Announced(rs, a.peer, uri, a.hash, a.size).0, uri, anns + [a])
  {
    if rs.size < a.size {
      LargerWins(rs, uri, anns, a);
    } else if rs.size == a.size && rs.hash == a.hash && a.peer !in rs.owner {
      OwnersGrow(rs.owner, anns, a, rs.size, rs.hash);
      VersionStays(rs, uri, anns, a, rs.owner + [a.peer]);
    } else {
      OwnersIgnore(rs.owner, anns, a, rs.size, rs.hash);
      VersionStays(rs, uri, anns, a, rs.owner);
    }
  }

  /**
   * After any announcements of a file that was not tracked, its size is the largest announced, its hash the
   * first one announced with that size, and its owners the peers that announced both, in order and once each.
   */
  lemma {:induction false} AnnouncementFold(m: Files, uri: Text, anns: seq<Ann>)
    requires uri !in m && anns != []
    ensures uri in RegisterAll(m, uri, anns) && Folded(RegisterAll(m, uri, anns)[uri], uri, anns)
    ensures RegisterAll(m, uri, anns) - {uri} == m
    decreases |anns|
  {
    var init := anns[..|anns| - 1];
    if init == [] {
      FirstStep(m, uri, anns);
    } else {
      AnnouncementFold(m, uri, init);
      FoldStep(RegisterAll(m, uri, init), uri, anns);
    }
  }

  lemma FirstStep(m: Files, uri: Text, anns: seq<Ann>)
    requires uri !in m && |anns| == 1
    ensures var now := Register(m, anns[0].peer, uri, anns[0].hash, anns[0].size).0;
            uri in now && Folded(now[uri], uri, anns) && now - {uri} == m
  {
    var a := anns[0];
    OwnersStart([], a);
    assert [] + [a] == [a] == anns;
    assert FirstLargest(anns, 0);
    MapStep(m, uri, Fresh(uri, a.size, a.hash, a.peer));
  }

  lemma FoldStep(was: Files, uri: Text, anns: seq<Ann>)
    requires anns != [] && uri in was && Folded(was[uri], uri, anns[..|anns| - 1])
    ensures var a := anns[|anns| - 1];
            var now := Register(was, a.peer, uri, a.hash, a.size).0;
            uri in now && Folded(now[uri], uri, anns) && now - {uri} == was - {uri}
  {
    var init, a := anns[..|anns| - 1], anns[|anns| - 1];
    assert anns == init + [a];
    FoldedSnoc(was[uri], uri, init, a);
    MapStep(was, uri, Announced(was[uri], a.peer, uri, a.hash, a.size).0);
  }

  lemma MapStep(m: Files, uri: Text, rs: SyncRs)
    ensures m[uri := rs] - {uri} == m - {uri}
    ensures uri !in m ==> m - {uri} == m
  {
  }
}
