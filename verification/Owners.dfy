// Who owns a file at the end of a run: whoever announced its version and has not failed since.
module Owners {
  import opened Octets
  import opened Blocks
  import opened Allocator
  import opened Machine
  import opened Downloads

  /**
   * Whoever announces the version under way is an owner afterwards, behind those there were, and no block and no
   * range changes, however many are in flight.
   */
  lemma AnnouncementAddsOwner(s: Sys, e: Event)
    requires Enabled(s, e) && e.Announce? && Tracked(s, e.uri)
    requires e.size == s.uris[e.uri].size && e.hash == s.uris[e.uri].hash
    ensures var was, now := s.uris[e.uri], Next(s, e).uris[e.uri];
            && e.peer in now.owner && was.owner <= now.owner
            && |now.owner| == |was.owner| + (if e.peer in was.owner then 0 else 1)
            && now.block == was.block && now.syncing == was.syncing && SameVersion(was, now)
  {
    AnnouncementJoins(s.uris[e.uri], e.peer, e.uri);
  }

  /** The step gives the peer up, because a request of this file could not be sent to it. */
  predicate GivesUp(s: Sys, e: Event, p: NetAddr, u: Text) {
    e.SendFailed? && s.worker.Sending? && s.worker.peer == p && s.worker.uri == u
  }

  /** No version of the file starts, and no send of it to the peer fails. */
  ghost predicate Undisturbed(s: Sys, es: seq<Event>, p: NetAddr, u: Text)
    requires Run(s, es)
    decreases |es|
  {
    es != [] ==>
      !StartsVersion(s, es[0], u) && !GivesUp(s, es[0], p, u) && Undisturbed(Next(s, es[0]), es[1..], p, u)
  }

  /** At some point of the run the peer announces this version, and what follows is undisturbed. */
  ghost predicate Standing(s: Sys, es: seq<Event>, p: NetAddr, u: Text, hash: Text, size: u64)
    requires Run(s, es)
    decreases |es|
  {
    es != [] &&
      var t, rest := Next(s, es[0]), es[1..];
      || (es[0] == Announce(p, u, hash, size) && Undisturbed(t, rest, p, u))
      || Standing(t, rest, p, u, hash, size)
  }

  predicate IsVersion(s: Sys, u: Text, hash: Text, size: u64) {
    Tracked(s, u) && s.uris[u].hash == hash && s.uris[u].size == size
  }

  predicate Owns(s: Sys, p: NetAddr, u: Text) { u in s.uris && p in s.uris[u].owner }

  /** What is tracked after a run without a new version was tracked all the time. */
  lemma {:induction false} SameAllAlong(s: Sys, es: seq<Event>, p: NetAddr, u: Text)
    requires Run(s, es) && Undisturbed(s, es, p, u) && Tracked(Exec(s, es), u)
    ensures Tracked(s, u) && VersionOf(u, s.uris[u]) == VersionOf(u, Exec(s, es).uris[u])
    decreases |es|
  {
    if es != [] {
      SameAllAlong(Next(s, es[0]), es[1..], p, u);
      TrackedStep(s, es[0], u);
    }
  }

  /**
   * Whatever else is announced in the meantime: a file that was announced is there, in this version or a larger one
   * or one of the same size, and if in this version, then with this owner.
   */
  lemma {:induction false} AnnouncedIsThere(s: Sys, es: seq<Event>, e: Event)
    requires Run(s, es) && (forall d | d in es :: d.Announce? || d.AddTask?) && e.Announce?
    requires e in es || IsThere(s, e)
    ensures IsThere(Exec(s, es), e)
    decreases |es|
  {
    if es != [] {
      var t := Next(s, es[0]);
      assert es[0] in es;
      if es[0].Announce? {
        RegisterOwners(s.uris, es[0].peer, es[0].uri, es[0].hash, es[0].size, e.peer, e.uri);
      }
      AnnouncedIsThere(t, es[1..], e);
    }
  }

  predicate IsThere(s: Sys, e: Event)
    requires e.Announce?
  {
    && e.uri in s.uris && e.size <= s.uris[e.uri].size
    && (s.uris[e.uri].size == e.size && s.uris[e.uri].hash == e.hash ==> e.peer in s.uris[e.uri].owner)
  }

  lemma OwnerKept(rs: SyncRs, peer: NetAddr, b: Block, p: NetAddr)
    ensures Assigned(rs, peer).0.owner == rs.owner && GaveBack(rs, peer, b).owner == rs.owner
    ensures Finished(rs, peer, b).Some? ==> Finished(rs, peer, b).value.owner == rs.owner
    ensures p in GaveBackAll(rs, peer).owner <==> p in rs.owner && p != peer
  {
    WithoutMembers(rs.owner, peer, p);
  }

  /** No step but an announcement makes an owner, and none but a failed send unmakes one. */
  lemma OwnerStep(s: Sys, e: Event, p: NetAddr, u: Text)
    requires Enabled(s, e) && !e.Announce? && Tracked(s, u) && u in Next(s, e).uris
    ensures Owns(Next(s, e), p, u) <==> Owns(s, p, u) && !GivesUp(s, e, p, u)
  {
    var rs := s.uris[u];
    match e {
      case Save(_, _, _, _, _) =>
      case AddTask(_) =>
      case TakeTask =>
      case Sent =>
      case Complete(_) => OwnerKept(rs, s.loop.peer, s.loop.block, p);
      case SaveFailed(_) => OwnerKept(rs, s.loop.peer, s.loop.block, p);
      case Allot(_) => OwnerKept(rs, s.worker.peer, Block(0, 0), p);
      case SendFailed(_) => OwnerKept(rs, s.worker.peer, Block(0, 0), p);
      case CopyOwners(_) =>
      case CountOwners(_) =>
      case CountBlocks(_) =>
      case CountSyncing(_) =>
      case Choose(_, _) =>
    }
  }

  /** One step, when the file is tracked in this version after it. */
  lemma VersionStep(s: Sys, e: Event, p: NetAddr, u: Text, hash: Text, size: u64)
    requires Enabled(s, e) && IsVersion(Next(s, e), u, hash, size)
    ensures Owns(Next(s, e), p, u) <==>
      || e == Announce(p, u, hash, size)
      || (IsVersion(s, u, hash, size) && Owns(s, p, u) && !StartsVersion(s, e, u) && !GivesUp(s, e, p, u))
  {
    TrackedStep(s, e, u);
    if e.Announce? {
      RegisterOwners(s.uris, e.peer, e.uri, e.hash, e.size, p, u);
    } else {
      OwnerStep(s, e, p, u);
    }
  }

  lemma RegisterOwners(m: Files, peer: NetAddr, v: Text, hash: Text, size: u64, p: NetAddr, u: Text)
    ensures var m' := Register(m, peer, v, hash, size).0;
            u in m' ==> (p in m'[u].owner <==>
              || (v == u && peer == p && m'[u].hash == hash && m'[u].size == size)
              || (u in m && p in m[u].owner && !(v == u && Starts(m, u, size))))
  {
  }

  lemma {:induction false} OwnersFrom(s: Sys, es: seq<Event>, p: NetAddr, u: Text, hash: Text, size: u64)
    requires Run(s, es) && IsVersion(Exec(s, es), u, hash, size)
    ensures Owns(Exec(s, es), p, u) <==>
      || Standing(s, es, p, u, hash, size)
      || (IsVersion(s, u, hash, size) && Owns(s, p, u) && Undisturbed(s, es, p, u))
    decreases |es|
  {
    if es != [] {
      var t, rest := Next(s, es[0]), es[1..];
      OwnersFrom(t, rest, p, u, hash, size);
      if Undisturbed(t, rest, p, u) {
        SameAllAlong(t, rest, p, u);
        VersionStep(s, es[0], p, u, hash, size);
      }
    }
  }

  /**
   * In every reachable state the owners of a tracked file are exactly the peers that announced its size and hash
   * since the version began and to which no request of the file has failed since.
   */
  lemma OwnersExactly(disk: map<Text, seq<byte>>, es: seq<Event>, u: Text, p: NetAddr)
    requires Run(Init(disk), es) && Tracked(Exec(Init(disk), es), u)
    ensures var rs := Exec(Init(disk), es).uris[u];
            p in rs.owner <==> Standing(Init(disk), es, p, u, rs.hash, rs.size)
  {
    var rs := Exec(Init(disk), es).uris[u];
    OwnersFrom(Init(disk), es, p, u, rs.hash, rs.size);
  }
}
