// One block over the wire: the request, the server's reading, its replies, and what the client makes of them.
module Exchange {
  import opened Octets
  import opened Blocks
  import opened RangeText
  import opened Wire
  import opened Packets
  import opened FileIo
  import opened Allocator
  import opened Machine
  import opened Downloads
  import Framing

  const URI: Text := T("uri")
  const HASH: Text := T("hash")
  const RANGE: Text := T("range")
  const CONTENT_RANGE: Text := T("content-range")

  const GET_RESOURCE: byte := 5
  const REPLY_RESOURCE: byte := 6

  const NAME_MAX := 2048

  lemma Keys()
    ensures Plain(URI) && Plain(HASH) && Plain(RANGE) && Plain(CONTENT_RANGE)
    ensures |URI| == 3 && |HASH| == 4 && |RANGE| == 5 && |CONTENT_RANGE| == 13
  {
    assert URI[0] == 'u' as int && URI[1] == 'r' as int && URI[2] == 'i' as int;
    assert HASH[0] == 'h' as int && HASH[1] == 'a' as int && HASH[2] == 's' as int && HASH[3] == 'h' as int;
    assert RANGE[0] == 'r' as int && RANGE[1] == 'a' as int && RANGE[2] == 'n' as int
        && RANGE[3] == 'g' as int && RANGE[4] == 'e' as int;
    LongKey();
  }

  /** The header names, letter by letter. */
  lemma KeyLetters()
    ensures URI == [117, 114, 105] && HASH == [104, 97, 115, 104] && RANGE == [114, 97, 110, 103, 101]
    ensures CONTENT_RANGE == [99, 111, 110, 116, 101, 110, 116, 45, 114, 97, 110, 103, 101]
  {
    var s := "content-range";
    assert s == ['c', 'o', 'n', 't', 'e', 'n', 't', '-', 'r', 'a', 'n', 'g', 'e'];
    assert forall i | 0 <= i < 13 :: CONTENT_RANGE[i] == s[i] as int;
    assert "uri" == ['u', 'r', 'i'] && "hash" == ['h', 'a', 's', 'h'] && "range" == ['r', 'a', 'n', 'g', 'e'];
  }

  lemma LongKey()
    ensures Plain(CONTENT_RANGE)
  {
    var s := "content-range";
    assert forall i | 0 <= i < 13 :: s[i] != ':' && s[i] as int != 0;
    assert forall i | 0 <= i < 13 :: CONTENT_RANGE[i] == s[i] as int;
  }

  // The request.

  function RangeOf(b: Block): Range { Range(b.start, Sub64(b.end, b.start)) }

  /** The packet sendRsReq builds. */
  function RequestPacket(uri: Text, b: Block): Packet {
    Added(Added(New(VERSION, GET_RESOURCE), URI, uri), RANGE, RangeOf(b).ToText())
  }

  /** The version and the type of a request, by which its receiver dispatches it. */
  lemma RequestBegins(uri: Text, b: Block, order: seq<Text>)
    requires forall k | k in order :: k in RequestPacket(uri, b).xheader
    ensures |ToWire(RequestPacket(uri, b), order)| >= 8 && ToWire(RequestPacket(uri, b), order)[..2] == [1, 5]
  {
    assert FixedHeader(RequestPacket(uri, b))[..2] == [1, 5];
  }

  method SendRsReq(uri: Text, b: Block, order: seq<Text>) returns (buf: seq<byte>)
    requires |uri| < NAME_MAX
    requires IsOrder(order, RequestPacket(uri, b).xheader)
    ensures buf == ToWire(RequestPacket(uri, b), order) && buf[..2] == [1, 5]
  {
    RequestBegins(uri, b, order);
    var pkt := new LanSyncPkt(VERSION, GET_RESOURCE);
    pkt.AddXheader(URI, uri);
    pkt.AddXheader(RANGE, RangeOf(b).ToText());
    RequestFits(uri, b);
    buf := pkt.Write(order);
  }

  // The reply.

  /** A row of the server's table together with the bytes of its file. */
  datatype Served = Served(uri: Text, hash: Text, size: u64, content: seq<byte>)

  function ReplyRange(range: Range, rs: Served, c: Chunk): ContentRange
    requires c.End() < TWO_64
  {
    ContentRange(c.from, |c.data|, rs.size, Add64(range.start, range.size) == Add64(c.from, |c.data|))
  }

  function ReplyHead(rs: Served, text: Text): Packet {
    Added(Added(Added(New(VERSION, REPLY_RESOURCE), HASH, rs.hash), URI, rs.uri), CONTENT_RANGE, text)
  }

  /** The packet the monitor builds for one chunk. */
  function ReplyPacket(range: Range, rs: Served, c: Chunk): Packet
    requires c.End() < TWO_64
  {
    WithData(ReplyHead(rs, ReplyRange(range, rs, c).ToText()), c.data)
  }

  /** What the fixed arrays of a table row can hold. */
  predicate InRow(rs: Served) { |rs.uri| < NAME_MAX && |rs.hash| < NAME_MAX }

  /** Nothing in the row gets lost in a header. */
  predicate Sendable(rs: Served) { Plain(rs.uri) && rs.uri != [] && Plain(rs.hash) && rs.hash != [] }

  /** The version and the type of a reply. */
  lemma ReplyBegins(range: Range, rs: Served, c: Chunk, order: seq<Text>)
    requires c.End() < TWO_64 && forall k | k in order :: k in ReplyPacket(range, rs, c).xheader
    ensures var f := ToWire(ReplyPacket(range, rs, c), order); |f| >= 8 && f[..2] == [1, 6]
  {
    assert FixedHeader(ReplyPacket(range, rs, c))[..2] == [1, 6];
  }

  method Monitor(range: Range, rs: Served, fromPos: u64, data: seq<byte>, order: seq<Text>) returns (buf: seq<byte>)
    requires InRow(rs) && fromPos + |data| < TWO_64 && |data| <= ONCE_MAX
    requires IsOrder(order, ReplyPacket(range, rs, Chunk(fromPos, data)).xheader)
    ensures buf == ToWire(ReplyPacket(range, rs, Chunk(fromPos, data)), order) && buf[..2] == [1, 6]
  {
    ReplyBegins(range, rs, Chunk(fromPos, data), order);
    var pkt := new LanSyncPkt(VERSION, REPLY_RESOURCE);
    pkt.AddXheader(HASH, rs.hash);
    pkt.AddXheader(URI, rs.uri);
    if Add64(range.start, range.size) == Add64(fromPos, |data|) {
      var cr := ContentRange(fromPos, |data|, rs.size, true);
      pkt.AddXheader(CONTENT_RANGE, cr.ToText());
    } else {
      var cr := ContentRange(fromPos, |data|, rs.size, false);
      pkt.AddXheader(CONTENT_RANGE, cr.ToText());
    }
    pkt.SetData(data);
    ReplyFits(range, rs, Chunk(fromPos, data));
    buf := pkt.Write(order);
  }

  function Header(p: Packet, key: Text): Text { if key in p.xheader then p.xheader[key] else [] }

  /** handleReqResource: a reply per chunk, and none for a file that is not there or a range that is not one. */
  function Serve(p: Packet, table: map<Text, Served>, io: Io): seq<Packet> {
    var uri, range := Header(p, URI), ParseRange(Header(p, RANGE));
    if range.None? || uri !in table || |table[uri].content| >= TWO_63 then []
    else Replies(range.value, table[uri], ReadChunks(table[uri].content, range.value.start, range.value.size, io))
  }

  function Replies(range: Range, rs: Served, cs: seq<Chunk>): seq<Packet> {
    if cs == [] then []
    else if cs[0].End() >= TWO_64 then []
    else [ReplyPacket(range, rs, cs[0])] + Replies(range, rs, cs[1..])
  }

  /** What handleReplyResource takes out of a reply: the file, the range and the bytes to save. */
  datatype Reply = Reply(uri: Text, start: u64, data: seq<byte>)

  function ReadReply(p: Packet): Option<Reply> {
    var uri, cr := Header(p, URI), ParseContentRange(Header(p, CONTENT_RANGE));
    if uri == [] || cr.None? || cr.value.size > |p.Payload()| then None
    else Some(Reply(uri, cr.value.start, p.Payload()[..cr.value.size]))
  }

  // Lengths and clean headers.

  /** A new header in a packet that fits. */
  lemma AddedFits(p: Packet, k: Text, v: Text)
    requires p.Fits() && k !in p.xheader
    requires p.headerLen + EntrySize(k, v) < TWO_16 && p.totalLen + EntrySize(k, v) < TWO_32
    ensures var q := Added(p, k, v);
            && q.Fits() && q.xheader == p.xheader[k := v] && q.data == p.data && q.version == p.version
            && q.headerLen == p.headerLen + EntrySize(k, v) && q.totalLen == p.totalLen + EntrySize(k, v)
  {
    HeaderBytesUpdate(p.xheader, k, v);
    NoWrap(p.headerLen, p.totalLen, 0, EntrySize(k, v));
  }

  lemma DataFits(p: Packet, d: seq<byte>)
    requires p.Fits() && p.data.None? && p.totalLen + |d| < TWO_32
    ensures WithData(p, d).Fits() && WithData(p, d).totalLen == p.totalLen + |d|
  {
  }

  lemma NewFits(kind: byte)
    ensures New(VERSION, kind).Fits()
  {
  }

  lemma SmallTotal(total: u32)
    requires 0 < total < TWO_24
    ensures !RawShort(total)
  {
  }

  lemma RangeTextShort(r: Range)
    ensures |r.ToText()| <= 41
  {
    TwentyDigits(r.start);
    TwentyDigits(Add64(r.start, r.size));
  }

  lemma ContentRangeTextShort(r: ContentRange)
    ensures |r.ToText()| <= 67
  {
    TwentyDigits(r.start);
    TwentyDigits(Add64(r.start, r.size));
    TwentyDigits(r.total);
    assert |LAST| == 4 && |MORE| == 4;
  }

  lemma RequestFits(uri: Text, b: Block)
    requires |uri| < NAME_MAX
    ensures RequestPacket(uri, b).Fits() && !RawShort(RequestPacket(uri, b).totalLen)
    ensures RequestPacket(uri, b).xheader == map[URI := uri, RANGE := RangeOf(b).ToText()]
  {
    Keys();
    NewFits(GET_RESOURCE);
    RangeTextShort(RangeOf(b));
    var p := New(VERSION, GET_RESOURCE);
    AddedFits(p, URI, uri);
    AddedFits(Added(p, URI, uri), RANGE, RangeOf(b).ToText());
    SmallTotal(RequestPacket(uri, b).totalLen);
  }

  lemma RequestCleanIff(uri: Text, b: Block)
    requires uri != []
    ensures Clean(map[URI := uri, RANGE := RangeOf(b).ToText()]) <==> Plain(uri)
  {
    Keys();
    RangeTextIsPlain(RangeOf(b));
    var m := map[URI := uri, RANGE := RangeOf(b).ToText()];
    assert URI in m && m[URI] == uri;
  }

  lemma ReplyHeadFits(rs: Served, text: Text)
    requires InRow(rs) && |text| <= 67
    ensures var p := ReplyHead(rs, text);
            && p.Fits() && p.data.None? && p.version == VERSION && p.totalLen < 0x2000
            && p.xheader == map[HASH := rs.hash, URI := rs.uri, CONTENT_RANGE := text]
  {
    Keys();
    NewFits(REPLY_RESOURCE);
    var p0 := New(VERSION, REPLY_RESOURCE);
    AddedFits(p0, HASH, rs.hash);
    var p1 := Added(p0, HASH, rs.hash);
    AddedFits(p1, URI, rs.uri);
    AddedFits(Added(p1, URI, rs.uri), CONTENT_RANGE, text);
  }

  lemma ReplyFits(range: Range, rs: Served, c: Chunk)
    requires InRow(rs) && c.End() < TWO_64 && |c.data| <= ONCE_MAX
    ensures var p := ReplyPacket(range, rs, c);
            && p.Fits() && !RawShort(p.totalLen) && p.totalLen < TWO_24 && p.version == VERSION
            && p.xheader == map[HASH := rs.hash, URI := rs.uri, CONTENT_RANGE := ReplyRange(range, rs, c).ToText()]
  {
    var text := ReplyRange(range, rs, c).ToText();
    ContentRangeTextShort(ReplyRange(range, rs, c));
    ReplyHeadFits(rs, text);
    DataFits(ReplyHead(rs, text), c.data);
    SmallTotal(ReplyPacket(range, rs, c).totalLen);
  }

  lemma ReplyCleanIff(rs: Served, cr: ContentRange)
    ensures Clean(map[HASH := rs.hash, URI := rs.uri, CONTENT_RANGE := cr.ToText()]) <==> Sendable(rs)
  {
    Keys();
    ContentRangeTextIsPlain(cr);
    var m := map[HASH := rs.hash, URI := rs.uri, CONTENT_RANGE := cr.ToText()];
    assert HASH in m && m[HASH] == rs.hash && URI in m && m[URI] == rs.uri;
  }

  // The exchange.

  /** Exactly one chunk when the first read returns everything. */
  lemma OneChunk(f: seq<byte>, b: Block, answers: Answers)
    requires b.start < b.end <= |f| && b.end - b.start <= ONCE_MAX
    requires !SeekFails(b.start) && InFull(answers, b.end - b.start)
    ensures ReadChunks(f, b.start, b.end - b.start, Opened(answers)) == [Chunk(b.start, f[b.start..b.end])]
  {
    var n := b.end - b.start;
    assert Add64(b.start, n) == b.end;
    assert Took(answers, Min(ONCE_MAX, n)) == n;
    FirstChunk(f, b.start, b.end, answers, n);
    assert Chunks(f, b.end, b.end, Later(answers)) == [];
  }

  ghost predicate HasChunk(cs: seq<Chunk>, from: nat, end: nat) {
    exists i :: 0 <= i < |cs| && cs[i].from == from && cs[i].End() == end
  }

  ghost predicate ComesBack(f: seq<byte>, b: Block, io: Io) {
    b.start <= b.end && HasChunk(ReadChunks(f, b.start, b.end - b.start, io), b.start, b.end)
  }

  lemma FirstIsAnother(c: Chunk, rest: seq<Chunk>, from: nat, end: nat)
    requires !(c.from == from && c.End() == end)
    ensures HasChunk([c] + rest, from, end) <==> HasChunk(rest, from, end)
  {
    var cs := [c] + rest;
    if HasChunk(rest, from, end) {
      var i :| 0 <= i < |rest| && rest[i].from == from && rest[i].End() == end;
      assert cs[i + 1] == rest[i];
    }
  }

  /** Nothing that is read later starts before. */
  lemma StartsBehind(f: seq<byte>, cur: nat, end: nat, answers: Answers, from: nat, to: nat)
    requires from < cur && end <= |f|
    ensures !HasChunk(Chunks(f, cur, end, answers), from, to)
  {
    var cs := Chunks(f, cur, end, answers);
    forall i | 0 <= i < |cs| ensures cs[i].from != from {
      ChunkEnds(f, cur, end, answers, i);
    }
  }

  lemma {:induction false} WholeChunkIff(f: seq<byte>, cur: nat, end: nat, answers: Answers)
    requires cur < end <= |f| && end - cur <= ONCE_MAX
    ensures HasChunk(Chunks(f, cur, end, answers), cur, end) <==> MovesAtOnce(answers, end - cur)
    decreases |answers|
  {
    var n := Took(answers, end - cur);
    var first, rest := Chunk(cur, f[cur..cur + n]), Chunks(f, cur + n, end, Later(answers));
    FirstChunk(f, cur, end, answers, n);
    if n == end - cur {
      assert ([first] + rest)[0] == first;
    } else {
      FirstIsAnother(first, rest, cur, end);
      if n == 0 {
        WholeChunkIff(f, cur, end, Later(answers));
      } else {
        StartsBehind(f, cur + n, end, Later(answers), cur, end);
      }
    }
  }

  /**
   * A chunk that is the requested block exists if and only if the file opens, can be positioned and reaches the
   * end of the block, and the first read that returns anything returns all of it.
   */
  lemma BlockComesBackIff(f: seq<byte>, b: Block, io: Io)
    requires b.start < b.end && b.end - b.start <= ONCE_MAX
    ensures ComesBack(f, b, io)
       <==> io.Opened? && !SeekFails(b.start) && b.end <= |f| && MovesAtOnce(io.answers, b.end - b.start)
  {
    assert Add64(b.start, b.end - b.start) == b.end;
    if io.Opened? && !SeekFails(b.start) {
      if b.end <= |f| {
        WholeChunkIff(f, b.start, b.end, io.answers);
      } else {
        TooShort(f, b.start, |f|, io.answers, b.end);
      }
    }
  }

  /** Nothing that is read ends behind the end of the file. */
  lemma TooShort(f: seq<byte>, cur: nat, end: nat, answers: Answers, to: nat)
    requires end <= |f| && end < to
    ensures !HasChunk(Chunks(f, cur, end, answers), cur, to)
  {
    var cs := Chunks(f, cur, end, answers);
    forall i | 0 <= i < |cs| ensures cs[i].End() != to {
      ChunkEnds(f, cur, end, answers, i);
    }
  }

  /**
   * For any short reads, exactly the final chunk is flagged as the last one, and only when the file has
   * everything that was asked for; otherwise every chunk says that more is to come.
   */
  lemma LastFlagIff(range: Range, rs: Served, io: Io, i: nat)
    requires |rs.content| < TWO_63 && i < |ReadChunks(rs.content, range.start, range.size, io)|
    ensures var cs := ReadChunks(rs.content, range.start, range.size, io);
            && cs[i].End() < TWO_64
            && (ReplyRange(range, rs, cs[i]).last
                <==> i == |cs| - 1 && Add64(range.start, range.size) <= |rs.content|)
  {
    ChunkEnds(rs.content, range.start, ReadEnd(rs.content, range.start, range.size), io.answers, i);
  }

  lemma NothingToRead(f: seq<byte>, start: u64, io: Io)
    ensures ReadChunks(f, start, 0, io) == []
  {
    assert Add64(start, 0) == start;
  }

  // The handler of a request.

  /** The order in which a map is walked. */
  method Walk(m: map<Text, Text>) returns (order: seq<Text>)
    ensures IsOrder(order, m)
  {
    order := [];
    var rest := m.Keys;
    while rest != {}
      invariant rest <= m.Keys
      invariant Distinct(order)
      invariant forall k :: k in order <==> k in m && k !in rest
      decreases rest
    {
      var k :| k in rest;
      order, rest := order + [k], rest - {k};
    }
  }

  ghost predicate WrittenAs(buf: seq<byte>, p: Packet) {
    exists order :: IsOrder(order, p.xheader) && buf == ToWire(p, order)
  }

  /** The buffers sent are the packets, one by one. */
  ghost predicate SentAs(sent: seq<seq<byte>>, ps: seq<Packet>) {
    |sent| == |ps| && forall i | 0 <= i < |ps| :: WrittenAs(sent[i], ps[i])
  }

  lemma {:induction false} RepliesSnoc(range: Range, rs: Served, cs: seq<Chunk>, c: Chunk)
    requires forall x | x in cs :: x.End() < TWO_64
    requires c.End() < TWO_64
    ensures Replies(range, rs, cs + [c]) == Replies(range, rs, cs) + [ReplyPacket(range, rs, c)]
    decreases |cs|
  {
    if cs == [] {
      assert cs + [c] == [c];
      OneReply(range, rs, c);
    } else {
      assert (cs + [c])[1..] == cs[1..] + [c];
      RepliesSnoc(range, rs, cs[1..], c);
    }
  }

  lemma RepliesNext(range: Range, rs: Served, cs: seq<Chunk>, i: nat)
    requires i < |cs| && forall x | x in cs :: x.End() < TWO_64
    ensures Replies(range, rs, cs[..i + 1]) == Replies(range, rs, cs[..i]) + [ReplyPacket(range, rs, cs[i])]
  {
    assert cs[..i + 1] == cs[..i] + [cs[i]];
    RepliesSnoc(range, rs, cs[..i], cs[i]);
  }

  lemma SentSnoc(sent: seq<seq<byte>>, ps: seq<Packet>, buf: seq<byte>, p: Packet)
    requires SentAs(sent, ps) && WrittenAs(buf, p)
    ensures SentAs(sent + [buf], ps + [p])
  {
  }

  /** The calls of the monitor, one for each chunk. */
  method SendReplies(range: Range, rs: Served, chunks: seq<Chunk>) returns (sent: seq<seq<byte>>)
    requires InRow(rs) && forall c | c in chunks :: c.End() < TWO_63 && |c.data| <= ONCE_MAX
    ensures SentAs(sent, Replies(range, rs, chunks))
  {
    sent := [];
    for i := 0 to |chunks|
      invariant SentAs(sent, Replies(range, rs, chunks[..i]))
    {
      var c := chunks[i];
      var buf := SendReply(range, rs, c);
      RepliesNext(range, rs, chunks, i);
      SentSnoc(sent, Replies(range, rs, chunks[..i]), buf, ReplyPacket(range, rs, c));
      sent := sent + [buf];
    }
    assert chunks[..|chunks|] == chunks;
  }

  method SendReply(range: Range, rs: Served, c: Chunk) returns (buf: seq<byte>)
    requires InRow(rs) && c.End() < TWO_63 && |c.data| <= ONCE_MAX
    ensures WrittenAs(buf, ReplyPacket(range, rs, c))
  {
    var order := Walk(ReplyPacket(range, rs, c).xheader);
    buf := Monitor(range, rs, c.from, c.data, order);
  }

  /** handleReqResource: what goes out on the connection, buffer by buffer. */
  method HandleReqResource(p: Packet, table: map<Text, Served>, io: Io) returns (sent: seq<seq<byte>>)
    requires forall u | u in table :: InRow(table[u])
    ensures SentAs(sent, Serve(p, table, io))
  {
    var uri, range := Header(p, URI), ParseRange(Header(p, RANGE));
    if range.None? || uri !in table || |table[uri].content| >= TWO_63 {
      return [];
    }
    var rs, r := table[uri], range.value;
    var _, _, chunks := ReadSize(rs.content, r.start, r.size, io);
    forall i | 0 <= i < |chunks| ensures chunks[i].End() < TWO_63 && |chunks[i].data| <= ONCE_MAX {
      ChunkEnds(rs.content, r.start, ReadEnd(rs.content, r.start, r.size), io.answers, i);
    }
    sent := SendReplies(r, rs, chunks);
  }

  /** A range without an end, such as the one for an empty file, is answered with silence. */
  lemma OpenRangeGetsNoReply(p: Packet, table: map<Text, Served>, io: Io, start: u64)
    requires Header(p, RANGE) == Range(start, 0).ToText()
    ensures Serve(p, table, io) == []
  {
    RangeRoundTrip(Range(start, 0));
    var uri := Header(p, URI);
    if uri in table {
      NothingToRead(table[uri].content, start, io);
    }
  }

  lemma RequestHeaders(uri: Text, b: Block)
    ensures Header(Received(RequestPacket(uri, b)), URI) == Header(RequestPacket(uri, b), URI) == uri
    ensures Header(Received(RequestPacket(uri, b)), RANGE) == Header(RequestPacket(uri, b), RANGE)
    ensures Header(RequestPacket(uri, b), RANGE) == RangeOf(b).ToText()
  {
    Keys();
  }

  lemma ReplyHeaders(range: Range, rs: Served, c: Chunk)
    requires c.End() < TWO_64
    ensures Header(ReplyPacket(range, rs, c), URI) == rs.uri && Header(ReplyPacket(range, rs, c), HASH) == rs.hash
    ensures Header(ReplyPacket(range, rs, c), CONTENT_RANGE) == ReplyRange(range, rs, c).ToText()
  {
    Keys();
  }

  /** A request arrives as it was sent, whatever the order of its headers, if and only if the uri is plain. */
  lemma RequestArrivesIff(uri: Text, b: Block, order: seq<Text>)
    requires uri != [] && |uri| < NAME_MAX && IsOrder(order, RequestPacket(uri, b).xheader)
    ensures ParseFrame(ToWire(RequestPacket(uri, b), order)) == Parsed(Received(RequestPacket(uri, b))) <==> Plain(uri)
  {
    RequestFits(uri, b);
    RequestCleanIff(uri, b);
    PacketRoundTripIff(RequestPacket(uri, b), order);
  }

  /**
   * Which file the server reads from a request, whatever the uri and the order of the headers: the part of the uri
   * before its first colon or NUL, and always the range that was asked for.
   */
  lemma RequestReadAs(uri: Text, b: Block, order: seq<Text>)
    requires |uri| < NAME_MAX && IsOrder(order, RequestPacket(uri, b).xheader)
    ensures var r := ParseFrame(ToWire(RequestPacket(uri, b), order));
            && r.Parsed? && r.pkt.version == 1 && r.pkt.kind == 5 && r.pkt.data == Some([])
            && Header(r.pkt, URI) == Arriving(uri) && Header(r.pkt, RANGE) == RangeOf(b).ToText()
  {
    var p := RequestPacket(uri, b);
    RequestFits(uri, b);
    WireParses(p, order);
    RequestKept(uri, b, order);
  }

  lemma RequestKept(uri: Text, b: Block, order: seq<Text>)
    requires |uri| < NAME_MAX && IsOrder(order, RequestPacket(uri, b).xheader)
    ensures var m := StorePairs(map[], order, RequestPacket(uri, b).xheader);
            && (if URI in m then m[URI] else []) == Arriving(uri)
            && RANGE in m && m[RANGE] == RangeOf(b).ToText()
  {
    var m, text := RequestPacket(uri, b).xheader, RangeOf(b).ToText();
    RequestFits(uri, b);
    Keys();
    StorePairsPlain(map[], order, m);
    RangeTextIsPlain(RangeOf(b));
    ArrivingIs(text, NUL, []);
    assert Landing(text) == Some(text);
    assert URI in order && RANGE in order;
  }

  /** So a name with a colon is cut there, and another file is served, or none. */
  lemma ColonCutsRequest(name: Text, rest: Text, b: Block, order: seq<Text>)
    requires Plain(name) && |name| + 1 + |rest| < NAME_MAX
    requires IsOrder(order, RequestPacket(name + [58] + rest, b).xheader)
    ensures var r := ParseFrame(ToWire(RequestPacket(name + [58] + rest, b), order));
            r.Parsed? && Header(r.pkt, URI) == name
  {
    RequestReadAs(name + [58] + rest, b, order);
    ArrivingIs(name, 58, rest);
  }

  /** A reply is a frame of its own, and it arrives as it was sent if and only if its uri and hash can be sent. */
  lemma ReplyArrivesIff(range: Range, rs: Served, c: Chunk, order: seq<Text>)
    requires InRow(rs) && c.End() < TWO_64 && |c.data| <= ONCE_MAX
    requires IsOrder(order, ReplyPacket(range, rs, c).xheader)
    ensures Framing.Framed(ToWire(ReplyPacket(range, rs, c), order))
    ensures ParseFrame(ToWire(ReplyPacket(range, rs, c), order)) == Parsed(Received(ReplyPacket(range, rs, c)))
       <==> Sendable(rs)
  {
    var p := ReplyPacket(range, rs, c);
    ReplyFits(range, rs, c);
    ReplyCleanIff(rs, ReplyRange(range, rs, c));
    PacketRoundTripIff(p, order);
    Framing.WrittenIsFramed(p, order);
  }

  /** What the client makes of any packet with a content range: nothing without a uri or enough data. */
  lemma ReplyReadAs(p: Packet, cr: ContentRange)
    requires Header(p, CONTENT_RANGE) == cr.ToText()
    ensures ReadReply(p) == if Header(p, URI) == [] || |p.Payload()| < cr.size then None
                            else Some(Reply(Header(p, URI), cr.start, p.Payload()[..cr.size]))
  {
    ContentRangeRoundTrip(cr);
  }

  /** The client reads from a reply which bytes of which file it carries. */
  lemma ReplyIsRead(range: Range, rs: Served, c: Chunk)
    requires rs.uri != [] && c.End() < TWO_64
    ensures ReadReply(Received(ReplyPacket(range, rs, c))) == Some(Reply(rs.uri, c.from, c.data))
  {
    ReplyHeaders(range, rs, c);
    ReplyReadAs(Received(ReplyPacket(range, rs, c)), ReplyRange(range, rs, c));
    assert c.data[..|c.data|] == c.data;
  }

  /** A request that names a file of the table and a range is answered chunk by chunk. */
  lemma ServeKnown(p: Packet, table: map<Text, Served>, io: Io, range: Range, rs: Served)
    requires Header(p, URI) == rs.uri && Header(p, RANGE) == range.ToText()
    requires rs.uri in table && table[rs.uri] == rs && |rs.content| < TWO_63
    ensures Serve(p, table, io) == Replies(range, rs, ReadChunks(rs.content, range.start, range.size, io))
  {
    RangeRoundTrip(range);
  }

  lemma OneReply(range: Range, rs: Served, c: Chunk)
    requires c.End() < TWO_64
    ensures Replies(range, rs, [c]) == [ReplyPacket(range, rs, c)]
  {
    assert [c][1..] == [];
  }

  lemma RangeOfProper(b: Block)
    requires b.start <= b.end
    ensures RangeOf(b) == Range(b.start, b.end - b.start) && Add64(b.start, b.end - b.start) == b.end
  {
  }

  /** The server's answer to a request that arrived. */
  lemma ServedInOneReply(b: Block, rs: Served, table: map<Text, Served>, answers: Answers)
    requires rs.uri in table && table[rs.uri] == rs && |rs.content| < TWO_63
    requires b.start < b.end <= |rs.content| && b.end - b.start <= ONCE_MAX
    requires InFull(answers, b.end - b.start)
    ensures var c := Chunk(b.start, rs.content[b.start..b.end]);
            && Serve(Received(RequestPacket(rs.uri, b)), table, Opened(answers)) == [ReplyPacket(RangeOf(b), rs, c)]
            && ReplyRange(RangeOf(b), rs, c) == ContentRange(b.start, b.end - b.start, rs.size, true)
  {
    var c := Chunk(b.start, rs.content[b.start..b.end]);
    RangeOfProper(b);
    ServeRequest(b, rs, table, Opened(answers));
    OneChunk(rs.content, b, answers);
    OneReply(RangeOf(b), rs, c);
  }

  lemma ServeRequest(b: Block, rs: Served, table: map<Text, Served>, io: Io)
    requires rs.uri in table && table[rs.uri] == rs && |rs.content| < TWO_63 && b.start <= b.end
    ensures Serve(Received(RequestPacket(rs.uri, b)), table, io)
         == Replies(RangeOf(b), rs, ReadChunks(rs.content, b.start, b.end - b.start, io))
  {
    RangeOfProper(b);
    RequestHeaders(rs.uri, b);
    ServeKnown(Received(RequestPacket(rs.uri, b)), table, io, RangeOf(b), rs);
  }

  /**
   * Request and reply agree: for a block the file has, read in one go, the server answers the request that
   * arrives with exactly one reply, flagged as the last one, and the client reads from the reply that arrives
   * exactly the block it asked for.
   */
  lemma RequestAndReplyAgree(b: Block, rs: Served, table: map<Text, Served>, answers: Answers,
                             order: seq<Text>, order': seq<Text>)
    requires InRow(rs) && Sendable(rs) && rs.uri in table && table[rs.uri] == rs && |rs.content| < TWO_63
    requires b.start < b.end <= |rs.content| && b.end - b.start <= ONCE_MAX
    requires InFull(answers, b.end - b.start)
    requires IsOrder(order, RequestPacket(rs.uri, b).xheader)
    requires IsOrder(order', ReplyPacket(RangeOf(b), rs, Chunk(b.start, rs.content[b.start..b.end])).xheader)
    ensures var request := ParseFrame(ToWire(RequestPacket(rs.uri, b), order));
            var reply := ReplyPacket(RangeOf(b), rs, Chunk(b.start, rs.content[b.start..b.end]));
            && ToWire(RequestPacket(rs.uri, b), order)[..2] == [1, 5] && ToWire(reply, order')[..2] == [1, 6]
            && request.Parsed? && Serve(request.pkt, table, Opened(answers)) == [reply]
            && Header(reply, HASH) == rs.hash
            && Header(reply, CONTENT_RANGE) == ContentRange(b.start, b.end - b.start, rs.size, true).ToText()
            && Framing.Framed(ToWire(reply, order'))
            && ParseFrame(ToWire(reply, order')) == Parsed(Received(reply))
            && ReadReply(Received(reply)) == Some(Reply(rs.uri, b.start, rs.content[b.start..b.end]))
  {
    var c := Chunk(b.start, rs.content[b.start..b.end]);
    RequestArrivesIff(rs.uri, b, order);
    ServedInOneReply(b, rs, table, answers);
    ReplyHeaders(RangeOf(b), rs, c);
    ReplyArrivesIff(RangeOf(b), rs, c, order');
    ReplyIsRead(RangeOf(b), rs, c);
    RequestBegins(rs.uri, b, order);
    ReplyBegins(RangeOf(b), rs, c, order');
  }

  /**
   * And the completion search finds it: saving and completing that reply moves exactly the assigned range
   * from in flight to finished, with its bytes on disk.
   */
  lemma ReplyFinishesBlock(s: Sys, p: NetAddr, rs: Served, b: Block, junk: u64)
    requires Inv(s) && s.loop.Waiting? && rs.uri != [] && rs.uri in s.uris && |rs.content| < TWO_63
    requires SyncingRange(p, b) in s.uris[rs.uri].syncing
    requires b.start < b.end <= |rs.content| && b.end - b.start <= ONCE_MAX
    ensures var u := rs.uri;
            var s1 := Next(s, Save(p, u, b.start, rs.content[b.start..b.end], Opened([])));
            var s2 := Next(s1, Complete(junk));
            && DoneOf(s2.done, u) == DoneOf(s.done, u) + [b]
            && (u in s2.uris ==> Held(s2.uris[u]) + multiset{b} == Held(s.uris[u]))
            && (u !in s2.uris ==> Held(s.uris[u]) == multiset{b})
            && HoldsBlock(FileOf(s2.disk, u), rs.content, b)
  {
    var u, data := rs.uri, rs.content[b.start..b.end];
    SavedBlock(FileOf(s.disk, u), rs.content, b);
    CompletedRange(s.uris, s.done, p, u, b, junk);
    SaveThenComplete(s, p, u, b, data, junk);
  }

  lemma SaveThenComplete(s: Sys, p: NetAddr, u: Text, b: Block, data: seq<byte>, junk: u64)
    requires s.loop.Waiting? && u != [] && b.start + |data| == b.end < TWO_63
    ensures var s2 := Next(Next(s, Save(p, u, b.start, data, Opened([]))), Complete(junk));
            && s2.uris == Finish(s.uris, p, u, b, junk)
            && s2.done == DoneAfter(s.uris, s.done, p, u, b, junk)
            && s2.disk == s.disk[u := Written(FileOf(s.disk, u), b.start, data, [])]
  {
    assert Next(s, Save(p, u, b.start, data, Opened([]))).loop == Saved(p, u, b);
  }

  lemma SavedBlock(f: seq<byte>, content: seq<byte>, b: Block)
    requires b.start < b.end <= |content| && b.end - b.start <= ONCE_MAX
    ensures HoldsBlock(Written(f, b.start, content[b.start..b.end], []), content, b)
  {
    OnePassWrites(f, b.start, content[b.start..b.end], []);
    SaveKeepsRanges(f, content, b.start, b.end, 0, 0);
  }

  lemma CompletedRange(uris: Files, done: map<Text, seq<Block>>, p: NetAddr, u: Text, b: Block, junk: u64)
    requires u in uris && SyncingRange(p, b) in uris[u].syncing
    ensures DoneOf(DoneAfter(uris, done, p, u, b, junk), u) == DoneOf(done, u) + [b]
    ensures var uris' := Finish(uris, p, u, b, junk);
            && (u in uris' ==> Held(uris'[u]) + multiset{b} == Held(uris[u]))
            && (u !in uris' ==> Held(uris[u]) == multiset{b})
  {
    FinishedConserves(uris[u], p, b);
  }

  /**
   * A reply with a resource table, n rows of 8200 bytes behind the bare header, never has one of the lengths
   * the receiver mistakes for a short one.
   */
  lemma TableReplyNeverRejected(n: nat)
    requires HEADER_LEN + 8200 * n < TWO_32
    ensures !RawShort(HEADER_LEN + 8200 * n)
  {
    var total := HEADER_LEN + 8200 * n;
    NoSuchTable(n, total / TWO_24);
    assert total == total / TWO_24 * TWO_24 + total % TWO_24;
  }

  lemma NoSuchTable(n: nat, k: nat)
    ensures k < HEADER_LEN ==> HEADER_LEN + 8200 * n != k * TWO_24
  {
    assert k < HEADER_LEN ==> (k * 0x20_0000 - 1) % 1025 != 0;
    assert (1025 * n) % 1025 == 0;
  }

  // A reply is believed as it stands.

  /** One range in flight and nothing else to do. */
  ghost predicate LastInFlight(s: Sys, p: NetAddr, u: Text, b: Block) {
    && Inv(s) && s.loop.Waiting? && u != [] && Tracked(s, u)
    && s.uris[u].block == [] && s.uris[u].syncing == [SyncingRange(p, b)]
  }

  lemma LastReplyDrops(s: Sys, p: NetAddr, u: Text, b: Block, data: seq<byte>, junk: u64)
    requires LastInFlight(s, p, u, b) && b.start + |data| == b.end < TWO_63 && |data| <= ONCE_MAX
    ensures var s1 := Next(s, Save(p, u, b.start, data, Opened([])));
            && Tracked(s1, u) && s1.loop == Saved(p, u, b)
            && u !in Next(s1, Complete(junk)).uris
            && FileOf(Next(s1, Complete(junk)).disk, u) == Overlay(FileOf(s.disk, u), b.start, data)
  {
    OnePassWrites(FileOf(s.disk, u), b.start, data, []);
  }

  /** Right everywhere but in the block, once that has been saved: a hole before it reads zero. */
  predicate RightOutside(f: seq<byte>, content: seq<byte>, b: Block) {
    forall o | 0 <= o < |content| && !Contains(b, o) ::
      if o < |f| then f[o] == content[o] else o < b.start < b.end && content[o] == 0
  }

  lemma OverlayRightIff(f: seq<byte>, b: Block, data: seq<byte>, content: seq<byte>)
    requires b.start + |data| == b.end <= |content|
    ensures HoldsUpTo(Overlay(f, b.start, data), content, |content|)
       <==> data == content[b.start..b.end] && RightOutside(f, content, b)
  {
    var g := Overlay(f, b.start, data);
    OverlayBytes(f, b.start, data);
    forall o | 0 <= o < |content|
      ensures ByteRight(g, content, o)
         <==> if Contains(b, o) then data[o - b.start] == content[o]
              else if o < |f| then f[o] == content[o]
              else o < b.start < b.end && content[o] == 0
    {
    }
    if HoldsUpTo(g, content, |content|) {
      forall i | 0 <= i < |data| ensures data[i] == content[b.start..b.end][i] {
        assert ByteRight(g, content, b.start + i);
      }
    }
    if data == content[b.start..b.end] {
      assert forall i | 0 <= i < |data| :: data[i] == content[b.start + i];
    }
  }

  /**
   * When the last range in flight is answered in one full write, the file is dropped whatever the bytes were. It
   * is right afterwards if and only if they were the bytes of the tracked version and the rest of the file was
   * right already; which it is when every finished block is.
   */
  lemma LastReplyRightIff(s: Sys, p: NetAddr, u: Text, b: Block, data: seq<byte>, content: seq<byte>, junk: u64)
    requires LastInFlight(s, p, u, b) && b.start + |data| == b.end < TWO_63 && |data| <= ONCE_MAX
    requires |content| == s.uris[u].size
    ensures var s2 := Next(Next(s, Save(p, u, b.start, data, Opened([]))), Complete(junk));
            && u !in s2.uris
            && (HoldsUpTo(FileOf(s2.disk, u), content, |content|)
                <==> data == Slice(content, b.start, b.end) && RightOutside(FileOf(s.disk, u), content, b))
    ensures ContentOf(s, u, content) && WholeFileCut(s.uris[u].size) ==> RightOutside(FileOf(s.disk, u), content, b)
  {
    LastBlockInFile(s, u, p, b);
    LastReplyDrops(s, p, u, b, data, junk);
    OverlayRightIff(FileOf(s.disk, u), b, data, content);
    if ContentOf(s, u, content) && WholeFileCut(s.uris[u].size) {
      FinishedRightOutside(s, p, u, b, content, junk);
    }
  }

  lemma FinishedRightOutside(s: Sys, p: NetAddr, u: Text, b: Block, content: seq<byte>, junk: u64)
    requires LastInFlight(s, p, u, b) && b.start <= b.end < TWO_63 && b.end - b.start <= ONCE_MAX
    requires ContentOf(s, u, content) && |content| == s.uris[u].size && WholeFileCut(s.uris[u].size)
    ensures RightOutside(FileOf(s.disk, u), content, b)
  {
    LastBlockInFile(s, u, p, b);
    var honest := content[b.start..b.end];
    LastReplyRight(s, p, u, b, honest, content, junk);
    OverlayRightIff(FileOf(s.disk, u), b, honest, content);
  }

  lemma LastReplyRight(s: Sys, p: NetAddr, u: Text, b: Block, data: seq<byte>, content: seq<byte>, junk: u64)
    requires LastInFlight(s, p, u, b) && b.start + |data| == b.end < TWO_63 && |data| <= ONCE_MAX
    requires ContentOf(s, u, content) && |content| == s.uris[u].size && WholeFileCut(s.uris[u].size)
    requires b.end <= |content| && data == content[b.start..b.end]
    ensures HoldsUpTo(Overlay(FileOf(s.disk, u), b.start, data), content, |content|)
  {
    SavedState(s, p, u, b, data, content);
    LastReplyDrops(s, p, u, b, data, junk);
    LastSavedRight(Next(s, Save(p, u, b.start, data, Opened([]))), u, content, junk);
  }

  lemma SavedState(s: Sys, p: NetAddr, u: Text, b: Block, data: seq<byte>, content: seq<byte>)
    requires Inv(s) && s.loop.Waiting? && u != [] && b.start + |data| == b.end < TWO_63 && |data| <= ONCE_MAX
    requires ContentOf(s, u, content) && b.end <= |content| && data == content[b.start..b.end]
    ensures var s1 := Next(s, Save(p, u, b.start, data, Opened([])));
            Inv(s1) && ContentOf(s1, u, content) && s1.uris == s.uris
  {
    var save := Save(p, u, b.start, data, Opened([]));
    SaveContent(s, save, u, content);
    StepOk(s, save);
  }

  lemma LastSavedRight(s: Sys, u: Text, content: seq<byte>, junk: u64)
    requires Inv(s) && s.loop.Saved? && Tracked(s, u) && u !in Next(s, Complete(junk)).uris
    requires ContentOf(s, u, content) && |content| == s.uris[u].size && WholeFileCut(s.uris[u].size)
    ensures HoldsUpTo(FileOf(Next(s, Complete(junk)).disk, u), content, |content|)
  {
    forall o | 0 <= o < |content| ensures ByteRight(FileOf(Next(s, Complete(junk)).disk, u), content, o) {
      DroppedByte(s, Complete(junk), u, content, o);
    }
  }

  lemma LastBlockInFile(s: Sys, u: Text, p: NetAddr, b: Block)
    requires Inv(s) && Tracked(s, u) && SyncingRange(p, b) in s.uris[u].syncing
    ensures b.start <= b.end <= s.uris[u].size
  {
    var rs := s.uris[u];
    var i := LastOf(rs.syncing, SyncingRange(p, b));
    BlocksOfRemove(rs.syncing, i);
    assert b in Held(rs) + multiset(DoneOf(s.done, u));
    assert b in multiset(Cut(rs.size));
    var j :| 0 <= j < |Cut(rs.size)| && Cut(rs.size)[j] == b;
    BlockShape(rs.size, j);
  }
}
