// LanSyncPkt: a packet built header by header, its length fields kept as it grows.
module Packets {
  import opened Octets
  import opened Splitting
  import opened Wire
  import opened Receiving

  // What each operation does to the fields.

  function New(version: byte, kind: byte): Packet {
    Packet(version, kind, map[], None, HEADER_LEN, HEADER_LEN)
  }

  /** The bytes addXheader takes out for the value it overwrites. */
  function TakenOut(p: Packet, k: Text): nat {
    if k in p.xheader && p.xheader[k] != [] then EntrySize(k, p.xheader[k]) else 0
  }

  /** addXheader: the 16-bit size of an old non-empty value goes out of both lengths, the new one comes in. */
  function Added(p: Packet, k: Text, v: Text): Packet {
    var out, come := TakenOut(p, k) % TWO_16, EntrySize(k, v) % TWO_16;
    p.(xheader := p.xheader[k := v],
       headerLen := ((p.headerLen - out) % TWO_16 + come) % TWO_16,
       totalLen := ((p.totalLen - out) % TWO_32 + come) % TWO_32)
  }

  /** queryXheader: a key that is absent is inserted with an empty value; the lengths do not notice. */
  function Queried(p: Packet, k: Text): Packet {
    if k in p.xheader then p else p.(xheader := p.xheader[k := []])
  }

  function WithData(p: Packet, d: seq<byte>): Packet {
    var base := if p.data.Some? then (p.totalLen - (p.totalLen - p.headerLen) % TWO_32) % TWO_32 else p.totalLen;
    p.(data := Some(d), totalLen := (base + |d|) % TWO_32)
  }

  // Every sequence of operations.

  datatype Op = Add(k: Text, v: Text) | Query(key: Text) | SetData(d: seq<byte>)

  function Apply(p: Packet, op: Op): Packet {
    match op
    case Add(k, v) => Added(p, k, v)
    case Query(k) => Queried(p, k)
    case SetData(d) => WithData(p, d)
  }

  function ApplyAll(p: Packet, ops: seq<Op>): Packet
    decreases |ops|
  {
    if ops == [] then p else ApplyAll(Apply(p, ops[0]), ops[1..])
  }

  /** The headers with a value. A query leaves keys without one behind. */
  function Live(m: map<Text, Text>): map<Text, Text> {
    map k | k in m && m[k] != [] :: m[k]
  }

  /** The header length counts the live headers, modulo its 16 bits. */
  ghost predicate HeaderCounted(p: Packet) {
    p.headerLen == (HEADER_LEN + HeaderBytes(Live(p.xheader))) % TWO_16
  }

  lemma LiveUpdate(m: map<Text, Text>, k: Text, v: Text)
    ensures v != [] ==> Live(m[k := v]) == Live(m)[k := v]
    ensures k !in m ==> Live(m[k := []]) == Live(m)
  {
  }

  lemma LiveBytesUpdate(p: Packet, k: Text, v: Text)
    requires v != []
    ensures TakenOut(p, k) <= HeaderBytes(Live(p.xheader))
    ensures HeaderBytes(Live(p.xheader[k := v])) == HeaderBytes(Live(p.xheader)) - TakenOut(p, k) + EntrySize(k, v)
  {
    LiveUpdate(p.xheader, k, v);
    HeaderBytesUpdate(Live(p.xheader), k, v);
  }

  lemma AddedHeaderLen(p: Packet, k: Text, v: Text)
    requires HeaderCounted(p) && v != []
    ensures HeaderCounted(Added(p, k, v))
  {
    LiveBytesUpdate(p, k, v);
    AddMod(HEADER_LEN + HeaderBytes(Live(p.xheader)), TakenOut(p, k), EntrySize(k, v));
  }

  lemma AddMod(a: int, out: int, come: int)
    ensures ((a % TWO_16 - out % TWO_16) % TWO_16 + come % TWO_16) % TWO_16 == (a - out + come) % TWO_16
  {
    var d := a % TWO_16 - out % TWO_16;
    var k := a / TWO_16 - out / TWO_16 + d / TWO_16 + come / TWO_16;
    var x := d % TWO_16 + come % TWO_16;
    assert a - out + come == x + k * TWO_16;
    ModShift(x, k);
  }

  lemma ModShift(x: int, k: int)
    ensures (x + k * TWO_16) % TWO_16 == x % TWO_16
  {
    var q, r := x / TWO_16, x % TWO_16;
    assert x + k * TWO_16 == (q + k) * TWO_16 + r;
  }

  /** Whatever is added, overwritten, asked for or set, in any order and of any size. */
  lemma {:induction false} HeaderLenCountsHeaders(p: Packet, ops: seq<Op>)
    requires HeaderCounted(p)
    requires forall op | op in ops :: op.Add? ==> op.v != []
    ensures HeaderCounted(ApplyAll(p, ops))
    decreases |ops|
  {
    if ops != [] {
      assert ops[0] in ops;
      match ops[0] {
        case Add(k, v) => AddedHeaderLen(p, k, v);
        case Query(k) => LiveUpdate(p.xheader, k, []);
        case SetData(_) =>
      }
      HeaderLenCountsHeaders(Apply(p, ops[0]), ops[1..]);
    }
  }

  /** The true sizes stay within the 16-bit and the 32-bit field. */
  ghost predicate Small(p: Packet) {
    && HEADER_LEN + HeaderBytes(Live(p.xheader)) < TWO_16
    && HEADER_LEN + HeaderBytes(Live(p.xheader)) + |p.Payload()| < TWO_32
  }

  ghost predicate AlwaysSmall(p: Packet, ops: seq<Op>)
    decreases |ops|
  {
    Small(p) && (ops != [] ==> AlwaysSmall(Apply(p, ops[0]), ops[1..]))
  }

  /** Both lengths are exact for the live headers and the data. */
  ghost predicate Exact(p: Packet) {
    && p.headerLen == HEADER_LEN + HeaderBytes(Live(p.xheader))
    && p.totalLen == p.headerLen + |p.Payload()|
  }

  lemma NoWrap(h: int, t: int, out: nat, come: nat)
    requires 0 <= h - out && 0 <= out < TWO_16 && h - out + come < TWO_16
    requires h <= t && t - out + come < TWO_32
    ensures ((h - out % TWO_16) % TWO_16 + come % TWO_16) % TWO_16 == h - out + come
    ensures ((t - out % TWO_16) % TWO_32 + come % TWO_16) % TWO_32 == t - out + come
  {
  }

  lemma AddedIsExact(p: Packet, k: Text, v: Text)
    requires Exact(p) && Small(p) && Small(Added(p, k, v)) && v != []
    ensures Exact(Added(p, k, v))
  {
    LiveBytesUpdate(p, k, v);
    NoWrap(p.headerLen, p.totalLen, TakenOut(p, k), EntrySize(k, v));
  }

  lemma ApplyIsExact(p: Packet, op: Op)
    requires Exact(p) && Small(p) && Small(Apply(p, op)) && (op.Add? ==> op.v != [])
    ensures Exact(Apply(p, op))
  {
    match op {
      case Add(k, v) => AddedIsExact(p, k, v);
      case Query(k) => LiveUpdate(p.xheader, k, []);
      case SetData(_) =>
    }
  }

  /** Without overflow on the way, both lengths are exact at the end. */
  lemma {:induction false} LengthsStayExact(p: Packet, ops: seq<Op>)
    requires Exact(p) && AlwaysSmall(p, ops)
    requires forall op | op in ops :: op.Add? ==> op.v != []
    ensures Exact(ApplyAll(p, ops))
    decreases |ops|
  {
    if ops != [] {
      assert ops[0] in ops;
      ApplyIsExact(p, ops[0]);
      LengthsStayExact(Apply(p, ops[0]), ops[1..]);
    }
  }

  /** A query for an absent key leaves the packet needing more bytes than it says. */
  lemma QueryBreaksFit(p: Packet, k: Text)
    requires p.Fits()
    ensures Queried(p, k).Fits() <==> k in p.xheader
  {
    if k !in p.xheader {
      HeaderBytesUpdate(p.xheader, k, []);
    }
  }

  /** Exact lengths and no empty value: the packet fits its buffer. */
  lemma ExactFits(p: Packet)
    requires Exact(p) && forall k | k in p.xheader :: p.xheader[k] != []
    ensures p.Fits()
  {
    assert Live(p.xheader) == p.xheader;
  }

  /** The length of the data as getDataLen computes it, and as the receiver does. */
  function DataLen(p: Packet): u32 { (p.totalLen - p.headerLen) % TWO_32 }

  /**
   * A header, new or overwritten and however long, leaves the data length alone if and only if the header length
   * does not overflow its 16 bits.
   */
  lemma DataLenKeptIff(p: Packet, k: Text, v: Text)
    ensures DataLen(Added(p, k, v)) == DataLen(p)
       <==> 0 <= p.headerLen - TakenOut(p, k) % 0x1_0000 + EntrySize(k, v) % 0x1_0000 < 0x1_0000
  {
    DataLenMod(p.headerLen, p.totalLen, TakenOut(p, k) % TWO_16, EntrySize(k, v) % TWO_16);
  }

  lemma DataLenMod(h: u16, t: u32, out: u16, come: u16)
    ensures (((t - out) % TWO_32 + come) % TWO_32 - ((h - out) % TWO_16 + come) % TWO_16) % TWO_32 == (t - h) % TWO_32
       <==> 0 <= h - out + come < TWO_16
  {
    var t', h' := ((t - out) % TWO_32 + come) % TWO_32, ((h - out) % TWO_16 + come) % TWO_16;
    assert exists q: int :: -1 <= q <= 1 && t' == t - out + come + q * TWO_32 by {
      var q := if t' < t - out + come then -1 else if t' == t - out + come then 0 else 1;
      assert t' == t - out + come + q * TWO_32;
    }
    assert h' == h - out + come || h' == h - out + come + TWO_16 || h' == h - out + come - TWO_16;
  }

  /** Data set once, or set again, is counted exactly, and nothing else of the packet changes. */
  lemma DataCounted(p: Packet, d: seq<byte>)
    requires p.data.Some? || p.totalLen == p.headerLen
    ensures var q := WithData(p, d);
            && DataLen(q) == |d| % 0x1_0000_0000 && q.data == Some(d)
            && q == p.(data := q.data, totalLen := q.totalLen)
  {
    Recounted(p.headerLen, p.totalLen, |d|);
  }

  lemma Recounted(h: u16, t: u32, n: nat)
    ensures (t - (t - h) % TWO_32) % TWO_32 == h && ((h + n) % TWO_32 - h) % TWO_32 == n % TWO_32
  {
    assert (t - h) % TWO_32 == if h <= t then t - h else t - h + TWO_32;
    var k := (h + n) / TWO_32;
    assert (h + n) % TWO_32 - h == n - k * TWO_32;
    var q, r := n / TWO_32, n % TWO_32;
    assert n - k * TWO_32 == (q - k) * TWO_32 + r;
  }

  /** A packet of version 1 and type 5 with the header a:b and one byte of data, byte for byte. */
  lemma ExamplePacket()
    ensures var p := WithData(Added(New(1, 5), [97], [98]), [255]);
            && p.Fits() && IsOrder([[97]], p.xheader)
            && ToWire(p, [[97]]) == [1, 5, 0, 12, 0, 0, 0, 13, 97, 58, 98, 0, 255]
  {
    var ks: seq<Text> := [[97]];
    ExampleFields();
    ExampleLayout(ks);
    assert FixedHeader(Packet(1, 5, map[[97] := [98]], Some([255]), 12, 13)) == [1, 5, 0, 12, 0, 0, 0, 13];
  }

  lemma ExampleFields()
    ensures WithData(Added(New(1, 5), [97], [98]), [255]) == Packet(1, 5, map[[97] := [98]], Some([255]), 12, 13)
    ensures HeaderBytes(map[[97] := [98]]) == 4
  {
    var none: map<Text, Text> := map[];
    HeaderBytesUpdate(none, [97], [98]);
    assert none - {[97]} == none;
  }

  lemma ExampleLayout(ks: seq<Text>)
    requires ks == [[97]]
    ensures Layout(ks, map[[97] := [98]]) == [97, 58, 98, 0]
  {
    CStrOfPlain([97]);
    CStrOfPlain([98]);
    assert ks[1..] == [];
    assert Layout(ks, map[[97] := [98]]) == Entry([97], [98]) + [];
  }

  // The class.

  class LanSyncPkt {
    var version: byte
    var kind: byte
    var xheader: map<Text, Text>
    var data: Option<seq<byte>>
    var headerLen: u16
    var totalLen: u32

    function Value(): Packet
      reads this
    {
      Packet(version, kind, xheader, data, headerLen, totalLen)
    }

    constructor (version: byte, kind: byte)
      ensures Value() == New(version, kind)
    {
      this.version, this.kind := version, kind;
      xheader, data := map[], None;
      headerLen, totalLen := HEADER_LEN, HEADER_LEN;
    }

    method AddXheader(key: Text, value: Text)
      modifies this
      ensures Value() == Added(old(Value()), key, value)
    {
      var existsValue := if key in xheader then xheader[key] else [];
      var kvLen: u16 := 0;
      if existsValue != [] {
        kvLen := EntrySize(key, existsValue) % TWO_16;
        headerLen := (headerLen - kvLen) % TWO_16;
        totalLen := (totalLen - kvLen) % TWO_32;
      }
      ghost var out := TakenOut(old(Value()), key) % TWO_16;
      assert headerLen == (old(headerLen) - out) % TWO_16 && totalLen == (old(totalLen) - out) % TWO_32;
      xheader := xheader[key := value];
      kvLen := EntrySize(key, value) % TWO_16;
      headerLen := (headerLen + kvLen) % TWO_16;
      totalLen := (totalLen + kvLen) % TWO_32;
    }

    method QueryXheader(key: Text) returns (value: Text)
      modifies this`xheader
      ensures Value() == Queried(old(Value()), key)
      ensures value == if key in old(xheader) then old(xheader)[key] else []
    {
      if key !in xheader {
        xheader := xheader[key := []];
      }
      value := xheader[key];
    }

    method SetData(d: seq<byte>)
      modifies this
      ensures Value() == WithData(old(Value()), d)
    {
      if data.Some? {
        var oldLen: u32 := (totalLen - headerLen) % TWO_32;
        totalLen := (totalLen - oldLen) % TWO_32;
      }
      data := Some(d);
      totalLen := (totalLen + |d|) % TWO_32;
    }

    /** Fills a zeroed buffer of totalLen bytes; order is the order in which the map is walked. */
    method Write(order: seq<Text>) returns (buf: seq<byte>)
      requires Value().Fits() && IsOrder(order, xheader)
      ensures buf == ToWire(Value(), order)
    {
      LayoutSize(order, xheader);
      var hd := new byte[totalLen](_ => 0);
      var fixed := FixedHeader(Value());
      Put(hd, 0, fixed);
      assert hd[..] == Fill(fixed, totalLen);
      PutHeaders(hd, fixed, order, xheader);
      Put(hd, headerLen, if data.Some? then data.value else []);
      buf := hd[..];
    }
  }

  /** The loop over the extension headers. */
  method PutHeaders(hd: array<byte>, ghost fixed: seq<byte>, order: seq<Text>, xheader: map<Text, Text>)
    requires IsOrder(order, xheader)
    requires |fixed| == HEADER_LEN && HEADER_LEN + |Layout(order, xheader)| <= hd.Length
    requires |Layout(order, xheader)| < TWO_16
    requires hd[..] == Fill(fixed, hd.Length)
    modifies hd
    ensures hd[..] == Fill(fixed + Layout(order, xheader), hd.Length)
  {
    var xhdpi: nat := HEADER_LEN;
    ghost var layout: seq<byte> := [];
    assert fixed + [] == fixed && order[0..] == order;
    for i := 0 to |order|
      invariant LayoutParts(order, i, xheader, layout)
      invariant xhdpi == HEADER_LEN + |layout| <= hd.Length
      invariant hd[..] == Fill(fixed + layout, hd.Length)
    {
      xhdpi, layout := PutNext(hd, fixed, order, i, xheader, xhdpi, layout);
    }
    LayoutDone(order, xheader, layout);
  }

  /** One extension header, behind those that are written. */
  method PutNext(hd: array<byte>, ghost fixed: seq<byte>, order: seq<Text>, i: nat, xheader: map<Text, Text>,
                 at: nat, ghost layout: seq<byte>) returns (next: nat, ghost layout': seq<byte>)
    requires i < |order| && LayoutParts(order, i, xheader, layout) && |Layout(order, xheader)| < TWO_16
    requires |fixed| == HEADER_LEN && HEADER_LEN + |Layout(order, xheader)| <= hd.Length
    requires at == HEADER_LEN + |layout| <= hd.Length && hd[..] == Fill(fixed + layout, hd.Length)
    modifies hd
    ensures LayoutParts(order, i + 1, xheader, layout')
    ensures next == HEADER_LEN + |layout'| <= hd.Length && hd[..] == Fill(fixed + layout', hd.Length)
  {
    LayoutNext(order, i, xheader, layout);
    var key, value := order[i], xheader[order[i]];
    PutEntry(hd, fixed, layout, at, key, value);
    next, layout' := at + EntrySize(key, value) % TWO_16, layout + Entry(key, value);
  }

  /** layout is the layout of the first i entries. */
  ghost predicate LayoutParts(order: seq<Text>, i: nat, m: map<Text, Text>, layout: seq<byte>) {
    && i <= |order|
    && (forall k | k in order :: k in m)
    && (forall k | k in order[i..] :: k in m)
    && layout + Layout(order[i..], m) == Layout(order, m)
  }

  lemma LayoutNext(order: seq<Text>, i: nat, m: map<Text, Text>, layout: seq<byte>)
    requires i < |order| && LayoutParts(order, i, m, layout)
    ensures order[i] in m
    ensures LayoutParts(order, i + 1, m, layout + Entry(order[i], m[order[i]]))
    ensures |layout| + EntrySize(order[i], m[order[i]]) <= |Layout(order, m)|
  {
    assert order[i] in order;
    assert order[i..][1..] == order[i + 1..] && order[i..][0] == order[i];
    var e, rest := Entry(order[i], m[order[i]]), Layout(order[i + 1..], m);
    assert layout + (e + rest) == (layout + e) + rest;
  }

  lemma LayoutDone(order: seq<Text>, m: map<Text, Text>, layout: seq<byte>)
    requires LayoutParts(order, |order|, m, layout)
    ensures layout == Layout(order, m)
  {
    assert order[|order|..] == [] && layout + [] == layout;
  }

  /** front, and zeros up to the end of a buffer of n bytes. */
  function Fill(front: seq<byte>, n: nat): seq<byte>
    requires |front| <= n
  {
    front + Zeros(n - |front|)
  }

  /** sprintf of one entry into the zeroed rest of the buffer. */
  method PutEntry(a: array<byte>, ghost fixed: seq<byte>, ghost layout: seq<byte>, at: nat, key: Text, value: Text)
    requires at == |fixed + layout| && at + EntrySize(key, value) <= a.Length
    requires a[..] == Fill(fixed + layout, a.Length)
    modifies a
    ensures a[..] == Fill(fixed + (layout + Entry(key, value)), a.Length)
  {
    var text := Pair(key, value) + [NUL];
    PairFits(key, value);
    Put(a, at, text);
    FillEntry(fixed + layout, key, value, a.Length);
    assert fixed + layout + Entry(key, value) == fixed + (layout + Entry(key, value));
  }

  lemma FillEntry(front: seq<byte>, k: Text, v: Text, n: nat)
    requires |front| + EntrySize(k, v) <= n && |Pair(k, v)| < EntrySize(k, v)
    ensures Fill(front, n)[..|front|] + (Pair(k, v) + [NUL]) + Fill(front, n)[|front| + |Pair(k, v)| + 1..]
         == Fill(front + Entry(k, v), n)
  {
  }

  /** The packet constructor from received bytes. */
  method Parse(f: seq<byte>) returns (r: ParseResult)
    ensures r == ParseFrame(f)
  {
    if |f| < HEADER_LEN {
      return Malformed;
    }
    if FromLe32(f[4..8]) < HEADER_LEN {
      return Rejected;
    }
    r := ParseRest(f, FromBe16(f[2..4]), FromBe32(f[4..8]));
  }

  method ParseRest(f: seq<byte>, headerLen: u16, totalLen: u32) returns (r: ParseResult)
    requires |f| >= HEADER_LEN
    ensures r == ParseFields(f, headerLen, totalLen)
  {
    var xheader := ParseHeaders(f[HEADER_LEN..], (headerLen - HEADER_LEN) % TWO_16);
    var dataLen := (totalLen - headerLen) % TWO_32;
    if xheader.None? || headerLen + dataLen > |f| {
      return Malformed;
    }
    var data := f[headerLen..headerLen + dataLen];
    return Parsed(Packet(f[0], f[1], xheader.value, Some(data), headerLen, totalLen));
  }

  /** The loop over the extension headers; none when it leaves the frame. */
  method ParseHeaders(body: seq<byte>, limit: nat) returns (r: Option<map<Text, Text>>)
    ensures var strings := Strings(body, 0, limit);
            r == if strings.None? then None else Some(StoreAll(map[], strings.value))
  {
    var xheader: map<Text, Text> := map[];
    var pos := 0;
    ghost var read: seq<Text> := [];
    PrependTwice([], [], Strings(body, 0, limit));
    while pos < limit
      invariant pos <= |body|
      invariant xheader == StoreAll(map[], read)
      invariant Strings(body, 0, limit) == Prepend(read, Strings(body, pos, limit))
      decreases |body| - pos
    {
      var end := NextNul(body, pos);
      if end == |body| || end + 1 >= TWO_16 {
        return None;
      }
      var kvstr := body[pos..end];
      NextString(body, pos, end, limit, read);
      StoreAllAppend(map[], read, kvstr);
      read := read + [kvstr];
      xheader := StoreString(xheader, kvstr);
      pos := end + 1;
    }
    assert read + [] == read;
    return Some(xheader);
  }

  method StoreString(xheader: map<Text, Text>, kvstr: Text) returns (r: map<Text, Text>)
    ensures r == Store(xheader, kvstr)
  {
    var kvv := SplitStr(kvstr, COLON);
    r := if |kvv| >= 2 then xheader[kvv[0] := kvv[1]] else xheader;
  }

  lemma NextString(body: seq<byte>, pos: nat, end: nat, limit: nat, read: seq<Text>)
    requires pos <= |body| && pos < limit && end == FindNul(body, pos) && end < |body| && end + 1 < TWO_16
    ensures Prepend(read, Strings(body, pos, limit)) == Prepend(read + [body[pos..end]], Strings(body, end + 1, limit))
  {
    PrependTwice(read, [body[pos..end]], Strings(body, end + 1, limit));
  }

  method NextNul(body: seq<byte>, pos: nat) returns (end: nat)
    requires pos <= |body|
    ensures end == FindNul(body, pos)
  {
    end := pos;
    while end < |body| && body[end] != NUL
      invariant pos <= end <= |body|
      invariant FindNul(body, pos) == FindNul(body, end)
    {
      end := end + 1;
    }
  }
}
