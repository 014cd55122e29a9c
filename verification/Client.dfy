// The handlers of SyncService and the task of the worker, each one shown to be a run of the machine.
module Client {
  import opened Octets
  import opened Blocks
  import opened Allocator
  import opened Announcements
  import opened FileIo
  import opened Machine
  import opened Handlers
  import Tasks
  import LocalTable
  import Wire
  import Exchange
  import Owners

  /** e announces a row of the map. */
  ghost predicate AnnouncesRow(e: Event, peer: NetAddr, want: map<Text, LocalTable.Resource>) {
    && e.Announce? && e.peer == peer
    && exists name :: name in want && e == Announce(peer, want[name].uri, want[name].hash, want[name].size)
  }

  /** e announces the last offer of a wanted name. */
  ghost predicate AnnouncesWanted(e: Event, peer: NetAddr, table: seq<LocalTable.Resource>,
                                  local: seq<LocalTable.Resource>) {
    exists name :: LocalTable.Wanted(table, local, name) &&
      var rs := LocalTable.LastOffer(table, name).value;
      e == Announce(peer, rs.uri, rs.hash, rs.size)
  }

  /** What one run of a task without interference does to the entries. */
  function TaskEffect(m: Files, u: Text, who: nat, sends: bool, junk: u64): Files
    requires who < |At(m, u, junk).owner| || At(m, u, junk).owner == []
  {
    var rs, seen := At(m, u, junk), Touch(m, u, junk);
    if rs.owner == [] || rs.block == [] || |rs.syncing| >= DOWNLOAD_LIMIT then seen
    else
      var (given, b) := Assign(seen, rs.owner[who], u, junk);
      if b.end != 0 && !sends then GiveBackAll(given, rs.owner[who], u, junk) else given
  }

  class SyncClient {
    const rsm: RsSyncManager
    const tm: Tasks.TaskManager
    var disk: map<Text, seq<byte>>
    var worker: Worker
    ghost var done: map<Text, seq<Block>>
    ghost var said: seq<Said>

    /** The state between two handlers, if the worker were at the given place. */
    ghost function ValueAt(w: Worker): Sys
      reads this, rsm, tm
    {
      Sys(rsm.uriRs, disk, tm.tasks, w, Waiting, done, said)
    }

    ghost function Value(): Sys
      reads this, rsm, tm
    {
      ValueAt(worker)
    }

    constructor (disk: map<Text, seq<byte>>)
      ensures Value() == Init(disk) && fresh(rsm) && fresh(tm)
    {
      rsm := new RsSyncManager();
      tm := new Tasks.TaskManager();
      this.disk, worker, done, said := disk, Idle, map[], [];
    }

    /** add_req_task: a task for every file with room for another range. */
    method AddReqTask() returns (ghost es: seq<Event>)
      modifies tm
      ensures Sweeps(old(Value()), es)
      ensures Run(old(Value()), es) && Value() == Exec(old(Value()), es)
      ensures forall u :: u in tm.tasks <==>
                u in old(tm.tasks) || (u in rsm.uriRs && |rsm.uriRs[u].syncing| < 5)
    {
      es := [];
      var rest := rsm.uriRs.Keys;
      while rest != {}
        invariant rest <= rsm.uriRs.Keys
        invariant forall e | e in es :: e.AddTask? && HasRoom(old(Value()), e.uri)
        invariant forall u | HasRoom(old(Value()), u) && u !in rest :: AddTask(u) in es
        invariant forall u :: u in tm.tasks <==> u in old(tm.tasks) || (HasRoom(old(Value()), u) && u !in rest)
        invariant Run(old(Value()), es) && Value() == Exec(old(Value()), es)
        decreases rest
      {
        var uri :| uri in rest;
        rest := rest - {uri};
        if |rsm.uriRs[uri].syncing| < DOWNLOAD_LIMIT {
          RunOne(old(Value()), es, AddTask(uri));
          es := es + [AddTask(uri)];
          var _ := tm.AddTask(uri);
        }
      }
    }

    /** saveLocal and the completion search of one reply. */
    method SaveReply(peer: NetAddr, r: Exchange.Reply, io: Io, junk: u64)
      requires r.uri != [] && r.start + |r.data| < TWO_63
      modifies this, rsm
      ensures var es := [Save(peer, r.uri, r.start, r.data, io), Complete(junk)];
              Run(old(Value()), es) && Value() == Exec(old(Value()), es)
    {
      SavedAndDone(Value(), peer, r, io, junk);
      var file := new DiskFile(FileOf(disk, r.uri));
      var _ := file.WriteFile(r.start, r.data, io);
      disk := disk[r.uri := file.content];
      var b := Block(r.start, r.start + |r.data|);
      done := DoneAfter(rsm.uriRs, done, peer, r.uri, b, junk);
      rsm.SyncingRangeDone(peer, r.uri, b, junk);
    }

    /** handleReplyResource for a reply that could be read; nothing happens for one that could not. */
    method HandleReplyResource(peer: NetAddr, p: Wire.Packet, io: Io, junk: u64)
      returns (ghost es: seq<Event>)
      requires Exchange.ReadReply(p).Some? ==>
                 Exchange.ReadReply(p).value.start + |Exchange.ReadReply(p).value.data| < TWO_63
      modifies this, rsm, tm
      ensures Run(old(Value()), es) && Value() == Exec(old(Value()), es)
      ensures var reply := Exchange.ReadReply(p);
              if reply.None? then es == []
              else
                var r := reply.value;
                && ReplyHandled(old(Value()), es) && |es| >= 2
                && es[0] == Save(peer, r.uri, r.start, r.data, io) && es[1] == Complete(junk)
    {
      var reply := Exchange.ReadReply(p);
      if reply.None? {
        return [];
      }
      var r := reply.value;
      SaveReply(peer, r, io, junk);
      ghost var first := [Save(peer, r.uri, r.start, r.data, io), Complete(junk)];
      ghost var more := AddReqTask();
      SweptAfter(old(Value()), first, more);
      es := first + more;
    }

    /** refreshSyncingRsByTbIdx, once the wanted rows are known: one announcement for each. */
    method RegisterRows(peer: NetAddr, want: map<Text, LocalTable.Resource>) returns (ghost es: seq<Event>)
      requires forall name | name in want :: want[name].uri != []
      modifies this, rsm
      ensures Run(old(Value()), es) && Value() == Exec(old(Value()), es)
      ensures |es| == |want| && forall e | e in es :: AnnouncesRow(e, peer, want)
      ensures forall name | name in want :: Announce(peer, want[name].uri, want[name].hash, want[name].size) in es
    {
      es := [];
      var rest := want.Keys;
      while rest != {}
        invariant rest <= want.Keys && |es| + |rest| == |want|
        invariant Run(old(Value()), es) && Value() == Exec(old(Value()), es)
        invariant forall e | e in es :: AnnouncesRow(e, peer, want)
        invariant forall name | name in want && name !in rest ::
                    Announce(peer, want[name].uri, want[name].hash, want[name].size) in es
        decreases rest
      {
        var name :| name in rest;
        rest := rest - {name};
        var rs := want[name];
        ghost var e := Announce(peer, rs.uri, rs.hash, rs.size);
        assert AnnouncesRow(e, peer, want);
        RunOne(old(Value()), es, e);
        es := es + [e];
        done := if Starts(rsm.uriRs, rs.uri, rs.size) then done[rs.uri := []] else done;
        said := said + [Said(rs.uri, Ann(peer, rs.hash, rs.size))];
        var _ := rsm.RegSyncRs(peer, rs.uri, rs.hash, rs.size);
      }
    }

    /** handleReplyTableIndex: announce every wanted row, then look for work. */
    method HandleReplyTableIndex(peer: NetAddr, table: seq<LocalTable.Resource>, local: seq<LocalTable.Resource>)
      returns (ghost es: seq<Event>, ghost fs: seq<Event>)
      modifies this, rsm, tm
      ensures Run(old(Value()), es + fs) && Value() == Exec(old(Value()), es + fs)
      ensures forall e | e in es :: AnnouncesWanted(e, peer, table, local)
      ensures forall name | LocalTable.Wanted(table, local, name) ::
                var rs := LocalTable.LastOffer(table, name).value;
                Announce(peer, rs.uri, rs.hash, rs.size) in es
      ensures TableHandled(old(Value()), es + fs)
      ensures forall name | LocalTable.Wanted(table, local, name) ::
                var rs := LocalTable.LastOffer(table, name).value;
                && rs.uri in rsm.uriRs && rs.size <= rsm.uriRs[rs.uri].size
                && (rsm.uriRs[rs.uri].size == rs.size && rsm.uriRs[rs.uri].hash == rs.hash ==>
                      peer in rsm.uriRs[rs.uri].owner)
    {
      var want := LocalTable.CmpThenRetNeedToSyncTable(table, local);
      forall name | name in want ensures want[name].uri != [] {
        LocalTable.LastOfferHasUri(table, name);
      }
      es := RegisterRows(peer, want);
      forall e | e in es ensures AnnouncesWanted(e, peer, table, local) {
        var name :| name in want && e == Announce(peer, want[name].uri, want[name].hash, want[name].size);
        assert LocalTable.Wanted(table, local, name);
      }
      fs := AddReqTask();
      TableProduces(old(Value()), es, fs, peer);
      forall name | LocalTable.Wanted(table, local, name)
        ensures var rs := LocalTable.LastOffer(table, name).value;
                Owners.IsThere(Value(), Announce(peer, rs.uri, rs.hash, rs.size))
      {
        var rs := LocalTable.LastOffer(table, name).value;
        Owners.AnnouncedIsThere(old(Value()), es + fs, Announce(peer, rs.uri, rs.hash, rs.size));
      }
    }

    /** The three looks at the manager that decide whether a task goes on. */
    method Look(uri: Text, junk: u64) returns (go: bool, ghost es: seq<Event>, ghost n: nat)
      modifies rsm
      ensures rsm.uriRs == Touch(old(rsm.uriRs), uri, junk)
      ensures var rs := At(old(rsm.uriRs), uri, junk);
              && n == |rs.owner|
              && (go <==> rs.owner != [] && rs.block != [] && |rs.syncing| < DOWNLOAD_LIMIT)
      ensures var owners := At(old(rsm.uriRs), uri, junk).owner;
              && Run(old(ValueAt(Copied(uri, owners))), es)
              && Exec(old(ValueAt(Copied(uri, owners))), es) == ValueAt(if go then Cleared(uri, owners, n) else Idle)
    {
      ghost var owners := At(rsm.uriRs, uri, junk).owner;
      ghost var s0 := ValueAt(Copied(uri, owners));
      n := |owners|;
      var ownerSize := rsm.GetOwnerSize(uri, junk);
      RunOne(s0, [], CountOwners(junk));
      es := [] + [CountOwners(junk)];
      if ownerSize == 0 {
        return false, es, n;
      }
      var blocks := rsm.GetBlockSize(uri, junk);
      RunOne(s0, es, CountBlocks(junk));
      es := es + [CountBlocks(junk)];
      if blocks == 0 {
        return false, es, n;
      }
      var syncing := rsm.GetSyncingSize(uri, junk);
      RunOne(s0, es, CountSyncing(junk));
      es := es + [CountSyncing(junk)];
      go := syncing < DOWNLOAD_LIMIT;
    }

    /** The assignment and the request, or the return of everything the peer had when it cannot be sent. */
    method AssignAndSend(uri: Text, peer: NetAddr, sends: bool, junk: u64) returns (ghost es: seq<Event>)
      modifies rsm
      ensures var (given, b) := Assign(old(rsm.uriRs), peer, uri, junk);
              rsm.uriRs == if b.end != 0 && !sends then GiveBackAll(given, peer, uri, junk) else given
      ensures Run(old(ValueAt(Chosen(uri, peer))), es) && ValueAt(Idle) == Exec(old(ValueAt(Chosen(uri, peer))), es)
    {
      ghost var s0 := ValueAt(Chosen(uri, peer));
      var b := rsm.RegReqSyncRsAuto(peer, uri, junk);
      RunOne(s0, [], Allot(junk));
      es := [] + [Allot(junk)];
      if b.end != 0 {
        if sends {
          RunOne(s0, es, Sent);
          es := es + [Sent];
        } else {
          rsm.UnregAllReqSyncRsByPeer(peer, uri, junk);
          RunOne(s0, es, SendFailed(junk));
          es := es + [SendFailed(junk)];
        }
      }
    }

    /**
     * One step of the worker, from one lock to the next, whatever the handlers did since the last one. who is
     * the random number, sends whether the write to the session succeeds.
     */
    method WorkerStep(who: nat, sends: bool, junk: u64) returns (ghost e: Event)
      requires worker.Idle? ==> tm.tasks != []
      requires worker.Cleared? ==> who < worker.n && who < |worker.owners|
      modifies this, rsm, tm
      ensures OfWorker(e) && Enabled(old(Value()), e) && Value() == Next(old(Value()), e)
    {
      match worker
      case Idle =>
        e := TakeTask;
        var uri := tm.TakeFront();
        worker := Started(uri);
      case Started(uri) =>
        e := CopyOwners(junk);
        var owners := At(rsm.uriRs, uri, junk).owner;
        rsm.uriRs := Touch(rsm.uriRs, uri, junk);
        worker := Copied(uri, owners);
      case Copied(uri, owners) =>
        e := CountOwners(junk);
        TouchTwice(rsm.uriRs, uri, junk);
        var n := rsm.GetOwnerSize(uri, junk);
        worker := if n == 0 then Idle else Counted(uri, owners, n);
      case Counted(uri, owners, n) =>
        e := CountBlocks(junk);
        TouchTwice(rsm.uriRs, uri, junk);
        var blocks := rsm.GetBlockSize(uri, junk);
        worker := if blocks == 0 then Idle else Open(uri, owners, n);
      case Open(uri, owners, n) =>
        e := CountSyncing(junk);
        TouchTwice(rsm.uriRs, uri, junk);
        var syncing := rsm.GetSyncingSize(uri, junk);
        worker := if syncing >= DOWNLOAD_LIMIT then Idle else Cleared(uri, owners, n);
      case Cleared(uri, owners, n) =>
        e := Choose(who, junk);
        rsm.uriRs := Touch(rsm.uriRs, uri, junk);
        worker := Chosen(uri, owners[who]);
      case Chosen(uri, peer) =>
        e := Allot(junk);
        var b := rsm.RegReqSyncRsAuto(peer, uri, junk);
        worker := if b.end != 0 then Sending(uri, peer, b) else Idle;
      case Sending(uri, peer, _) =>
        if sends {
          e := Sent;
        } else {
          e := SendFailed(junk);
          rsm.UnregAllReqSyncRsByPeer(peer, uri, junk);
        }
        worker := Idle;
    }

    /**
     * The worker takes the first task and runs it without interference. who is the random number, sends
     * whether the write to the session succeeds.
     */
    method RunTask(who: nat, sends: bool, junk: u64) returns (ghost es: seq<Event>)
      requires worker.Idle? && tm.tasks != []
      requires var owner := At(rsm.uriRs, tm.tasks[0], junk).owner; who < |owner| || owner == []
      modifies rsm, tm
      ensures Run(old(Value()), es) && Value() == Exec(old(Value()), es)
      ensures [old(tm.tasks)[0]] + tm.tasks == old(tm.tasks)
      ensures rsm.uriRs == TaskEffect(old(rsm.uriRs), old(tm.tasks)[0], who, sends, junk)
    {
      ghost var s0 := Value();
      var uri := tm.TakeFront();
      var owners := At(rsm.uriRs, uri, junk).owner;
      CopyRun(s0, junk);
      TouchTwice(rsm.uriRs, uri, junk);
      rsm.uriRs := Touch(rsm.uriRs, uri, junk);
      es := [TakeTask, CopyOwners(junk)];
      var go, looked, n := Look(uri, junk);
      RunThen(s0, es, looked);
      es := es + looked;
      if go {
        TouchTwice(rsm.uriRs, uri, junk);
        RunOne(s0, es, Choose(who, junk));
        es := es + [Choose(who, junk)];
        assert Exec(s0, es) == ValueAt(Chosen(uri, owners[who]));
        var sent := AssignAndSend(uri, owners[who], sends, junk);
        RunThen(s0, es, sent);
        es := es + sent;
      }
    }
  }

  /** A lookup changes nothing once the entry is there. */
  lemma TouchTwice(m: Files, uri: Text, junk: u64)
    ensures uri in m ==> Touch(m, uri, junk) == m
    ensures Touch(Touch(m, uri, junk), uri, junk) == Touch(m, uri, junk)
  {
  }

  lemma SavedAndDone(s: Sys, peer: NetAddr, r: Exchange.Reply, io: Io, junk: u64)
    requires s.loop.Waiting? && r.uri != [] && r.start + |r.data| < TWO_63
    ensures var es, b := [Save(peer, r.uri, r.start, r.data, io), Complete(junk)], Block(r.start, r.start + |r.data|);
            && Run(s, es)
            && Exec(s, es) == s.(disk := s.disk[r.uri := Stored(FileOf(s.disk, r.uri), r.start, r.data, io)],
                                 done := DoneAfter(s.uris, s.done, peer, r.uri, b, junk),
                                 uris := Finish(s.uris, peer, r.uri, b, junk))
  {
    var save, b := Save(peer, r.uri, r.start, r.data, io), Block(r.start, r.start + |r.data|);
    assert Next(s, save).loop == Saved(peer, r.uri, b);
    RunTwo(s, save, Complete(junk));
  }

  lemma CopyRun(s: Sys, junk: u64)
    requires s.worker.Idle? && s.tasks != []
    ensures var es, u := [TakeTask, CopyOwners(junk)], s.tasks[0];
            && Run(s, es)
            && Exec(s, es) == s.(tasks := s.tasks[1..], uris := Touch(s.uris, u, junk),
                                 worker := Copied(u, At(s.uris, u, junk).owner))
  {
    RunTwo(s, TakeTask, CopyOwners(junk));
  }
}
