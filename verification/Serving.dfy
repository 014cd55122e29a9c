// What all the replies to one request add up to, however the server's reads are cut short.
module Serving {
  import opened Octets
  import opened RangeText
  import opened Wire
  import opened FileIo
  import opened Exchange

  /** The data of the replies, one after the other. */
  function Payloads(ps: seq<Packet>): seq<byte> {
    if ps == [] then [] else ps[0].Payload() + Payloads(ps[1..])
  }

  /** There is one reply for each chunk, and each one says where its bytes belong: behind all that came before. */
  lemma {:induction false} RepliesFollow(range: Range, rs: Served, cs: seq<Chunk>, from: nat, i: nat)
    requires rs.uri != [] && |rs.content| < TWO_63 && Consecutive(cs, rs.content, from) && i < |cs|
    ensures |Replies(range, rs, cs)| == |cs| && ReadsBehind(Replies(range, rs, cs), i, rs.uri, from)
    decreases i
  {
    var first, rest := ReplyPacket(range, rs, cs[0]), Replies(range, rs, cs[1..]);
    RepliesCount(range, rs, cs, from);
    if i == 0 {
      ReplyIsRead(range, rs, cs[0]);
    } else {
      RepliesFollow(range, rs, cs[1..], cs[0].End(), i - 1);
      OneFurther(first, rest, i - 1, rs.uri, from);
    }
  }

  /** Reply i is for this file, and for as many bytes behind from as the replies before it carry. */
  predicate ReadsBehind(ps: seq<Packet>, i: nat, uri: Text, from: nat) {
    && i < |ps|
    && var r := ReadReply(Received(ps[i]));
       && r.Some? && r.value.uri == uri && r.value.data == ps[i].Payload()
       && r.value.start == from + |Payloads(ps[..i])|
  }

  lemma OneFurther(p: Packet, ps: seq<Packet>, i: nat, uri: Text, from: nat)
    requires ReadsBehind(ps, i, uri, from + |p.Payload()|)
    ensures ReadsBehind([p] + ps, i + 1, uri, from)
  {
    PayloadsFirst(p, ps[..i]);
    assert ([p] + ps)[..i + 1] == [p] + ps[..i];
  }

  lemma PayloadsFirst(p: Packet, ps: seq<Packet>)
    ensures Payloads([p] + ps) == p.Payload() + Payloads(ps)
  {
    assert ([p] + ps)[1..] == ps;
  }

  lemma {:induction false} RepliesCount(range: Range, rs: Served, cs: seq<Chunk>, from: nat)
    requires |rs.content| < TWO_63 && Consecutive(cs, rs.content, from)
    ensures |Replies(range, rs, cs)| == |cs|
    decreases |cs|
  {
    if cs != [] {
      RepliesCount(range, rs, cs[1..], cs[0].End());
    }
  }

  lemma {:induction false} RepliesCarry(range: Range, rs: Served, cs: seq<Chunk>, from: nat)
    requires |rs.content| < TWO_63 && Consecutive(cs, rs.content, from)
    ensures Payloads(Replies(range, rs, cs)) == Data(cs)
    decreases |cs|
  {
    if cs != [] {
      RepliesCarry(range, rs, cs[1..], cs[0].End());
      PayloadsFirst(ReplyPacket(range, rs, cs[0]), Replies(range, rs, cs[1..]));
    }
  }

  /** Saving what the client reads from the replies, with full writes. */
  function SaveReplies(f: seq<byte>, ps: seq<Packet>): seq<byte>
    decreases |ps|
  {
    if ps == [] then f
    else
      var r := ReadReply(Received(ps[0]));
      SaveReplies(if r.None? then f else Written(f, r.value.start, r.value.data, []), ps[1..])
  }

  /** Saving the chunks themselves. */
  function SaveChunks(f: seq<byte>, cs: seq<Chunk>): seq<byte>
    decreases |cs|
  {
    if cs == [] then f else SaveChunks(Overlay(f, cs[0].from, cs[0].data), cs[1..])
  }

  lemma {:induction false} ChunksSaved(f: seq<byte>, content: seq<byte>, cs: seq<Chunk>, from: nat)
    requires Consecutive(cs, content, from)
    ensures SaveChunks(f, cs) == Overlay(f, from, Data(cs))
    decreases |cs|
  {
    if cs != [] {
      ChunksSaved(Overlay(f, from, cs[0].data), content, cs[1..], cs[0].End());
      OverlayTwice(f, from, cs[0].data, Data(cs[1..]));
    }
  }

  lemma {:induction false} RepliesSaved(f: seq<byte>, range: Range, rs: Served, cs: seq<Chunk>, from: nat)
    requires rs.uri != [] && |rs.content| < TWO_63 && Consecutive(cs, rs.content, from)
    ensures SaveReplies(f, Replies(range, rs, cs)) == SaveChunks(f, cs)
    decreases |cs|
  {
    if cs != [] {
      SaveFirst(f, range, rs, cs[0], Replies(range, rs, cs[1..]));
      RepliesSaved(Overlay(f, from, cs[0].data), range, rs, cs[1..], cs[0].End());
    }
  }

  lemma SaveFirst(f: seq<byte>, range: Range, rs: Served, c: Chunk, ps: seq<Packet>)
    requires rs.uri != [] && c.End() < TWO_64 && |c.data| <= ONCE_MAX
    ensures SaveReplies(f, [ReplyPacket(range, rs, c)] + ps) == SaveReplies(Overlay(f, c.from, c.data), ps)
  {
    var all := [ReplyPacket(range, rs, c)] + ps;
    assert all[0] == ReplyPacket(range, rs, c) && all[1..] == ps;
    ReplyIsRead(range, rs, c);
    OnePassWrites(f, c.from, c.data, []);
  }

  /**
   * The replies read as consecutive pieces of the file from start on. Together they carry these bytes, and saving
   * them all changes exactly these bytes of a file.
   */
  ghost predicate Carries(ps: seq<Packet>, uri: Text, start: nat, bytes: seq<byte>) {
    && Payloads(ps) == bytes
    && (forall i | 0 <= i < |ps| :: ReadsBehind(ps, i, uri, start))
    && (forall f :: SaveReplies(f, ps) == Overlay(f, start, bytes))
  }

  lemma ChunksCarry(range: Range, rs: Served, cs: seq<Chunk>, from: nat)
    requires rs.uri != [] && |rs.content| < TWO_63 && Consecutive(cs, rs.content, from)
    ensures Carries(Replies(range, rs, cs), rs.uri, from, Data(cs))
  {
    RepliesCount(range, rs, cs, from);
    RepliesCarry(range, rs, cs, from);
    forall i | 0 <= i < |cs| ensures ReadsBehind(Replies(range, rs, cs), i, rs.uri, from) {
      RepliesFollow(range, rs, cs, from, i);
    }
    forall f ensures SaveReplies(f, Replies(range, rs, cs)) == Overlay(f, from, Data(cs)) {
      RepliesSaved(f, range, rs, cs, from);
      ChunksSaved(f, rs.content, cs, from);
    }
  }

  lemma ReadUpToEnd(f: seq<byte>, start: u64, size: u64, answers: Answers)
    requires start < TWO_63 && start + size < TWO_64
    ensures var cs := ReadChunks(f, start, size, Opened(answers));
            Consecutive(cs, f, start) && Data(cs) == Slice(f, start, Min(start + size, |f|))
  {
    var end := Min(start + size, |f|);
    assert Add64(start, size) == start + size;
    ChunksFollow(f, start, end, answers);
    ChunksTile(f, start, end, answers);
  }

  /**
   * Whatever the short reads: the replies to a request together carry the bytes that were asked for, as far as the
   * file has them.
   */
  lemma ServedFileArrives(p: Packet, table: map<Text, Served>, answers: Answers, range: Range, rs: Served)
    requires Header(p, URI) == rs.uri && Header(p, RANGE) == range.ToText() && rs.uri != []
    requires rs.uri in table && table[rs.uri] == rs && |rs.content| < TWO_63
    requires range.start < TWO_63 && range.start + range.size < TWO_64
    ensures Carries(Serve(p, table, Opened(answers)), rs.uri, range.start,
                    Slice(rs.content, range.start, Min(range.start + range.size, |rs.content|)))
  {
    ServeKnown(p, table, Opened(answers), range, rs);
    RangeArrives(answers, range, rs, ReadChunks(rs.content, range.start, range.size, Opened(answers)));
  }

  lemma RangeArrives(answers: Answers, range: Range, rs: Served, cs: seq<Chunk>)
    requires rs.uri != [] && |rs.content| < TWO_63
    requires range.start < TWO_63 && range.start + range.size < TWO_64
    requires cs == ReadChunks(rs.content, range.start, range.size, Opened(answers))
    ensures Carries(Replies(range, rs, cs), rs.uri, range.start,
                    Slice(rs.content, range.start, Min(range.start + range.size, |rs.content|)))
  {
    ReadUpToEnd(rs.content, range.start, range.size, answers);
    ChunksCarry(range, rs, cs, range.start);
  }
}
