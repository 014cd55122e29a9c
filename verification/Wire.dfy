// The bytes of a packet: fixed header, extension headers, data.
module Wire {
  import opened Octets
  import opened Splitting

  const HEADER_LEN := 8
  const VERSION: byte := 1

  /** The fields of a LanSyncPkt. The data pointer is null until data is set. */
  datatype Packet = Packet(version: byte, kind: byte, xheader: map<Text, Text>, data: Option<seq<byte>>,
                           headerLen: u16, totalLen: u32) {
    function Payload(): seq<byte> { if data.Some? then data.value else [] }

    /** The two length fields say exactly how many bytes the packet takes. */
    ghost predicate Fits() {
      && headerLen == HEADER_LEN + HeaderBytes(xheader)
      && totalLen == headerLen + |Payload()|
    }
  }

  /** Key, colon, value, NUL. */
  function EntrySize(k: Text, v: Text): nat { |k| + |v| + 2 }

  ghost function HeaderBytes(m: map<Text, Text>): nat
    decreases |m|
  {
    if m == map[] then 0
    else
      var k :| k in m;
      assert |m - {k}| < |m| by { assert (m - {k}).Keys == m.Keys - {k}; }
      EntrySize(k, m[k]) + HeaderBytes(m - {k})
  }

  /** The sum does not depend on the order. */
  lemma {:induction false} HeaderBytesAt(m: map<Text, Text>, k: Text)
    requires k in m
    ensures HeaderBytes(m) == EntrySize(k, m[k]) + HeaderBytes(m - {k})
    decreases |m|
  {
    var j :| j in m && HeaderBytes(m) == EntrySize(j, m[j]) + HeaderBytes(m - {j});
    if j != k {
      assert (m - {j}).Keys == m.Keys - {j} && (m - {k}).Keys == m.Keys - {k};
      HeaderBytesAt(m - {j}, k);
      HeaderBytesAt(m - {k}, j);
      assert m - {j} - {k} == m - {k} - {j};
    }
  }

  lemma HeaderBytesUpdate(m: map<Text, Text>, k: Text, v: Text)
    ensures HeaderBytes(m[k := v]) == EntrySize(k, v) + HeaderBytes(m - {k})
    ensures k in m ==> HeaderBytes(m) == EntrySize(k, m[k]) + HeaderBytes(m - {k})
    ensures k !in m ==> HeaderBytes(m) == HeaderBytes(m - {k})
  {
    HeaderBytesAt(m[k := v], k);
    assert m[k := v] - {k} == m - {k};
    if k in m {
      HeaderBytesAt(m, k);
    } else {
      assert m - {k} == m;
    }
  }

  // Network byte order.

  function Be16(n: u16): seq<byte> { [n / 0x100, n % 0x100] }

  function Be32(n: u32): seq<byte> { [n / TWO_24, n / TWO_16 % 0x100, n / 0x100 % 0x100, n % 0x100] }

  function FromBe16(s: seq<byte>): u16
    requires |s| == 2
  {
    s[0] as int * 0x100 + s[1] as int
  }

  function FromBe32(s: seq<byte>): u32
    requires |s| == 4
  {
    s[0] as int * TWO_24 + s[1] as int * TWO_16 + s[2] as int * 0x100 + s[3] as int
  }

  /** The same four bytes read without swapping, on a little-endian host. */
  function FromLe32(s: seq<byte>): u32
    requires |s| == 4
  {
    s[3] as int * TWO_24 + s[2] as int * TWO_16 + s[1] as int * 0x100 + s[0] as int
  }

  /** Most significant byte first, and back. */
  lemma BigEndianRoundTrip(n: u32)
    ensures Be32(n) == [n / 0x100_0000, n / 0x1_0000 % 0x100, n / 0x100 % 0x100, n % 0x100] && FromBe32(Be32(n)) == n
    ensures n < TWO_16 ==> Be16(n) == [n / 0x100, n % 0x100] && FromBe16(Be16(n)) == n
  {
    LowBytes(n);
  }

  /** Unswapped, only zero to seven times 2^24 looks shorter than a header. */
  lemma RawLengthShort(n: u32)
    ensures FromLe32(Be32(n)) < HEADER_LEN <==> n % TWO_24 == 0 && n / TWO_24 < HEADER_LEN
  {
    var low := n % TWO_24;
    LowBytes(n);
    assert FromLe32(Be32(n)) < HEADER_LEN <==>
      n / TWO_16 % 0x100 == 0 && n / 0x100 % 0x100 == 0 && n % 0x100 == 0 && n / TWO_24 < HEADER_LEN;
  }

  lemma LowBytes(n: u32)
    ensures n % TWO_24 == n / TWO_16 % 0x100 * TWO_16 + n / 0x100 % 0x100 * 0x100 + n % 0x100
  {
    assert n % TWO_24 == n - n / TWO_24 * TWO_24;
    assert n / TWO_16 / 0x100 == n / TWO_24;
    assert n / 0x100 / 0x100 == n / TWO_16;
  }

  // Writing.

  /** The part of a string that %s prints. */
  function CStr(t: Text): Text { t[..IndexOf(t, NUL)] }

  function Pair(k: Text, v: Text): Text { CStr(k) + [COLON] + CStr(v) }

  /** One entry as sprintf leaves it in the zeroed buffer, padded to the space the entry was given. */
  function Entry(k: Text, v: Text): (e: seq<byte>)
    ensures |e| == EntrySize(k, v)
  {
    Pair(k, v) + [NUL] + Zeros(EntrySize(k, v) - |Pair(k, v)| - 1)
  }

  function Layout(ks: seq<Text>, m: map<Text, Text>): seq<byte>
    requires forall k | k in ks :: k in m
  {
    if ks == [] then [] else Entry(ks[0], m[ks[0]]) + Layout(ks[1..], m)
  }

  /** ks is an order in which the map can be walked. */
  ghost predicate IsOrder<V>(ks: seq<Text>, m: map<Text, V>) {
    && (forall i, j | 0 <= i < j < |ks| :: ks[i] != ks[j])
    && (forall k :: k in ks <==> k in m)
  }

  function FixedHeader(p: Packet): (h: seq<byte>)
    ensures |h| == HEADER_LEN
  {
    [p.version, p.kind] + Be16(p.headerLen) + Be32(p.totalLen)
  }

  function ToWire(p: Packet, ks: seq<Text>): seq<byte>
    requires forall k | k in ks :: k in p.xheader
  {
    FixedHeader(p) + Layout(ks, p.xheader) + p.Payload()
  }

  lemma {:induction false} LayoutSize(ks: seq<Text>, m: map<Text, Text>)
    requires IsOrder(ks, m)
    ensures |Layout(ks, m)| == HeaderBytes(m)
  {
    if ks == [] {
      assert forall k :: k in m ==> k in ks;
      assert m == map[];
    } else {
      var k, rest := ks[0], m - {ks[0]};
      assert k in ks;
      forall x ensures x in ks[1..] <==> x in rest {
        if x in ks[1..] {
          var i :| 0 <= i < |ks[1..]| && ks[1..][i] == x;
          assert ks[i + 1] == x;
        }
        if x in rest {
          assert x in ks && x != k;
        }
      }
      assert IsOrder(ks[1..], rest);
      LayoutSize(ks[1..], rest);
      LayoutSubmap(ks[1..], m, rest);
      HeaderBytesAt(m, k);
    }
  }

  lemma {:induction false} LayoutSubmap(ks: seq<Text>, m: map<Text, Text>, n: map<Text, Text>)
    requires forall k | k in ks :: k in m && k in n && m[k] == n[k]
    ensures Layout(ks, m) == Layout(ks, n)
  {
    if ks != [] {
      LayoutSubmap(ks[1..], m, n);
    }
  }

  /** Writing fills the buffer of totalLen bytes exactly. */
  lemma WireLength(p: Packet, ks: seq<Text>)
    requires p.Fits() && IsOrder(ks, p.xheader)
    ensures |ToWire(p, ks)| == p.totalLen
  {
    LayoutSize(ks, p.xheader);
  }

  // Parsing.

  /** What the packet constructor does with a frame. */
  datatype ParseResult =
    | Rejected              // the length check fails: both lengths are set to zero and nothing else is
    | Malformed             // the constructor reads outside the frame, or its 16-bit counter wraps
    | Parsed(pkt: Packet)

  /** xheader[kvv[0]] = kvv[1], when there are two tokens. */
  function Store(acc: map<Text, Text>, s: Text): map<Text, Text> {
    var kv := Split(s, COLON);
    if |kv| >= 2 then acc[kv[0] := kv[1]] else acc
  }

  /** The first NUL from pos on, or the end of the frame. */
  function FindNul(body: seq<byte>, pos: nat): (end: nat)
    requires pos <= |body|
    ensures pos <= end <= |body|
    decreases |body| - pos
  {
    if pos == |body| || body[pos] == NUL then pos else FindNul(body, pos + 1)
  }

  /** The strings the header loop reads from pos on; body is everything behind the fixed header. */
  function Strings(body: seq<byte>, pos: nat, limit: nat): Option<seq<Text>>
    requires pos <= |body|
    decreases |body| - pos
  {
    if pos >= limit then Some([])
    else
      var end := FindNul(body, pos);
      if end == |body| || end + 1 >= TWO_16 then None
      else Prepend([body[pos..end]], Strings(body, end + 1, limit))
  }

  function Prepend(ss: seq<Text>, rest: Option<seq<Text>>): Option<seq<Text>> {
    if rest.Some? then Some(ss + rest.value) else None
  }

  function StoreAll(acc: map<Text, Text>, ss: seq<Text>): map<Text, Text>
    decreases |ss|
  {
    if ss == [] then acc else StoreAll(Store(acc, ss[0]), ss[1..])
  }

  function ParseFrame(f: seq<byte>): ParseResult {
    if |f| < HEADER_LEN then Malformed
    else if FromLe32(f[4..8]) < HEADER_LEN then Rejected
    else
      ParseFields(f, FromBe16(f[2..4]), FromBe32(f[4..8]))
  }

  /** The extension headers and the data, once the lengths are known. */
  function ParseFields(f: seq<byte>, headerLen: u16, totalLen: u32): ParseResult
    requires |f| >= HEADER_LEN
  {
    var strings := Strings(f[HEADER_LEN..], 0, (headerLen - HEADER_LEN) % TWO_16);
    var dataLen := (totalLen - headerLen) % TWO_32;
    if strings.None? || headerLen + dataLen > |f| then Malformed
    else Parsed(Packet(f[0], f[1], StoreAll(map[], strings.value), Some(f[headerLen..headerLen + dataLen]),
                       headerLen, totalLen))
  }

  // Parsing what was written.

  function Empties(n: nat): seq<Text> { seq(n, _ => []) }

  /** The strings in the space of one entry: the pair, and an empty one for each byte of padding. */
  function EntryStrings(k: Text, v: Text): seq<Text>
    requires |Pair(k, v)| < EntrySize(k, v)
  {
    [Pair(k, v)] + Empties(EntrySize(k, v) - |Pair(k, v)| - 1)
  }

  lemma PairFits(k: Text, v: Text)
    ensures |Pair(k, v)| < EntrySize(k, v)
  {
  }

  function LayoutStrings(ks: seq<Text>, m: map<Text, Text>): seq<Text>
    requires forall k | k in ks :: k in m
  {
    if ks == [] then []
    else
      PairFits(ks[0], m[ks[0]]);
      EntryStrings(ks[0], m[ks[0]]) + LayoutStrings(ks[1..], m)
  }

  lemma {:induction false} FindNulAt(body: seq<byte>, pos: nat, end: nat)
    requires pos <= end < |body| && body[end] == NUL && forall i | pos <= i < end :: body[i] != NUL
    ensures FindNul(body, pos) == end
    decreases end - pos
  {
    if pos < end {
      FindNulAt(body, pos + 1, end);
    }
  }

  lemma PrependTwice(a: seq<Text>, b: seq<Text>, rest: Option<seq<Text>>)
    ensures Prepend(a, Prepend(b, rest)) == Prepend(a + b, rest)
    ensures Prepend([], rest) == rest
  {
    if rest.Some? {
      assert a + (b + rest.value) == (a + b) + rest.value;
      assert [] + rest.value == rest.value;
    }
  }

  lemma {:induction false} ReadPadding(body: seq<byte>, pos: nat, pad: nat, limit: nat)
    requires pos + pad <= |body| && pos + pad <= limit < TWO_16
    requires forall i | pos <= i < pos + pad :: body[i] == NUL
    ensures Strings(body, pos, limit) == Prepend(Empties(pad), Strings(body, pos + pad, limit))
    decreases pad
  {
    var rest := Strings(body, pos + pad, limit);
    if pad == 0 {
      assert Empties(0) == [];
      PrependTwice([], [], rest);
    } else {
      assert body[pos..pos] == [];
      ReadPadding(body, pos + 1, pad - 1, limit);
      PrependTwice([[]], Empties(pad - 1), rest);
      assert [[]] + Empties(pad - 1) == Empties(pad);
    }
  }

  /** One string and its NUL. */
  lemma ReadString(body: seq<byte>, pos: nat, s: Text, limit: nat)
    requires pos < limit && pos + |s| < |body| && body[pos + |s|] == NUL && pos + |s| + 1 < TWO_16
    requires NUL !in s && body[pos..pos + |s|] == s
    ensures Strings(body, pos, limit) == Prepend([s], Strings(body, pos + |s| + 1, limit))
  {
    forall i | pos <= i < pos + |s| ensures body[i] != NUL {
      assert body[i] == s[i - pos];
    }
    FindNulAt(body, pos, pos + |s|);
  }

  lemma CStrIsClean(t: Text)
    ensures NUL !in CStr(t)
  {
  }

  lemma EntryBytes(k: Text, v: Text)
    ensures NUL !in Pair(k, v) && |Pair(k, v)| < |Entry(k, v)|
    ensures Entry(k, v)[..|Pair(k, v)|] == Pair(k, v)
    ensures forall i | |Pair(k, v)| <= i < |Entry(k, v)| :: Entry(k, v)[i] == NUL
  {
    CStrIsClean(k);
    CStrIsClean(v);
  }

  /** body holds s at pos. */
  ghost predicate Holds(body: seq<byte>, pos: nat, s: seq<byte>) {
    pos + |s| <= |body| && body[pos..pos + |s|] == s
  }

  /** body holds the first part of what it holds, and the second part behind it. */
  lemma HoldsParts(body: seq<byte>, pos: nat, s: seq<byte>, t: seq<byte>)
    requires Holds(body, pos, s + t)
    ensures Holds(body, pos, s) && Holds(body, pos + |s|, t)
  {
    var st := body[pos..pos + |s| + |t|];
    assert body[pos..pos + |s|] == st[..|s|] && body[pos + |s|..pos + |s| + |t|] == st[|s|..];
  }

  /** A string, its NUL and the padding behind it. */
  lemma ReadPadded(body: seq<byte>, pos: nat, s: Text, pad: nat, limit: nat)
    requires pos + |s| + 1 + pad <= |body| && pos + |s| + 1 + pad <= limit < TWO_16
    requires NUL !in s && body[pos..pos + |s|] == s
    requires forall i | pos + |s| <= i < pos + |s| + 1 + pad :: body[i] == NUL
    ensures Strings(body, pos, limit) == Prepend([s] + Empties(pad), Strings(body, pos + |s| + 1 + pad, limit))
  {
    ReadString(body, pos, s, limit);
    ReadPadding(body, pos + |s| + 1, pad, limit);
    PrependTwice([s], Empties(pad), Strings(body, pos + |s| + 1 + pad, limit));
  }

  lemma ReadEntry(body: seq<byte>, pos: nat, k: Text, v: Text, limit: nat)
    requires Holds(body, pos, Entry(k, v)) && pos + EntrySize(k, v) <= limit < TWO_16
    requires |Pair(k, v)| < EntrySize(k, v)
    ensures Strings(body, pos, limit) == Prepend(EntryStrings(k, v), Strings(body, pos + EntrySize(k, v), limit))
  {
    var s, next := Pair(k, v), pos + EntrySize(k, v);
    var e := body[pos..next];
    EntryBytes(k, v);
    assert body[pos..pos + |s|] == e[..|s|] == s;
    forall i | pos + |s| <= i < next ensures body[i] == NUL {
      assert body[i] == e[i - pos];
    }
    ReadPadded(body, pos, s, next - pos - |s| - 1, limit);
  }

  lemma {:induction false} ReadLayout(body: seq<byte>, pos: nat, ks: seq<Text>, m: map<Text, Text>, limit: nat)
    requires forall k | k in ks :: k in m
    requires Holds(body, pos, Layout(ks, m)) && pos + |Layout(ks, m)| == limit < TWO_16
    ensures Strings(body, pos, limit) == Some(LayoutStrings(ks, m))
    decreases |ks|
  {
    if ks != [] {
      HoldsFirst(body, pos, ks, m);
      ReadLayout(body, pos + EntrySize(ks[0], m[ks[0]]), ks[1..], m, limit);
      ReadFirst(body, pos, ks, m, limit);
    }
  }

  lemma ReadFirst(body: seq<byte>, pos: nat, ks: seq<Text>, m: map<Text, Text>, limit: nat)
    requires ks != [] && forall k | k in ks :: k in m
    requires var next := pos + EntrySize(ks[0], m[ks[0]]);
             && Holds(body, pos, Entry(ks[0], m[ks[0]])) && next <= |body| && next <= limit < TWO_16
             && Strings(body, next, limit) == Some(LayoutStrings(ks[1..], m))
    ensures Strings(body, pos, limit) == Some(LayoutStrings(ks, m))
  {
    PairFits(ks[0], m[ks[0]]);
    ReadEntry(body, pos, ks[0], m[ks[0]], limit);
    FirstStrings(ks, m);
  }

  lemma HoldsFirst(body: seq<byte>, pos: nat, ks: seq<Text>, m: map<Text, Text>)
    requires ks != [] && (forall k | k in ks :: k in m) && Holds(body, pos, Layout(ks, m))
    ensures var k, v := ks[0], m[ks[0]];
            var next := pos + EntrySize(k, v);
            && Holds(body, pos, Entry(k, v)) && Holds(body, next, Layout(ks[1..], m))
            && next + |Layout(ks[1..], m)| == pos + |Layout(ks, m)|
  {
    HoldsParts(body, pos, Entry(ks[0], m[ks[0]]), Layout(ks[1..], m));
  }

  lemma FirstStrings(ks: seq<Text>, m: map<Text, Text>)
    requires ks != [] && forall k | k in ks :: k in m
    ensures |Pair(ks[0], m[ks[0]])| < EntrySize(ks[0], m[ks[0]])
    ensures Prepend(EntryStrings(ks[0], m[ks[0]]), Some(LayoutStrings(ks[1..], m))) == Some(LayoutStrings(ks, m))
  {
    PairFits(ks[0], m[ks[0]]);
  }

  /** Empty strings store nothing. */
  lemma {:induction false} StoreEmpties(acc: map<Text, Text>, n: nat, ss: seq<Text>)
    ensures StoreAll(acc, Empties(n) + ss) == StoreAll(acc, ss)
    decreases n
  {
    if n == 0 {
      assert Empties(0) + ss == ss;
    } else {
      assert Empties(n) + ss == [[]] + (Empties(n - 1) + ss);
      assert Store(acc, []) == acc;
      StoreFirst(acc, [], Empties(n - 1) + ss);
      StoreEmpties(acc, n - 1, ss);
    }
  }

  /** The headers that come back from a layout: each pair is stored in turn. */
  function StorePairs(acc: map<Text, Text>, ks: seq<Text>, m: map<Text, Text>): map<Text, Text>
    requires forall k | k in ks :: k in m
    decreases |ks|
  {
    if ks == [] then acc else StorePairs(Store(acc, Pair(ks[0], m[ks[0]])), ks[1..], m)
  }

  lemma LayoutStringsStep(ks: seq<Text>, m: map<Text, Text>, pad: nat)
    requires ks != [] && forall k | k in ks :: k in m
    requires EntrySize(ks[0], m[ks[0]]) == |Pair(ks[0], m[ks[0]])| + 1 + pad
    ensures LayoutStrings(ks, m) == [Pair(ks[0], m[ks[0]])] + (Empties(pad) + LayoutStrings(ks[1..], m))
  {
  }

  lemma StoreFirst(acc: map<Text, Text>, s: Text, ss: seq<Text>)
    ensures StoreAll(acc, [s] + ss) == StoreAll(Store(acc, s), ss)
  {
    assert ([s] + ss)[1..] == ss;
  }

  lemma {:induction false} StoreLayout(acc: map<Text, Text>, ks: seq<Text>, m: map<Text, Text>)
    requires forall k | k in ks :: k in m
    ensures StoreAll(acc, LayoutStrings(ks, m)) == StorePairs(acc, ks, m)
    decreases |ks|
  {
    if ks != [] {
      var k, v := ks[0], m[ks[0]];
      PairFits(k, v);
      var pad, rest := EntrySize(k, v) - |Pair(k, v)| - 1, LayoutStrings(ks[1..], m);
      LayoutStringsStep(ks, m, pad);
      StoreFirst(acc, Pair(k, v), Empties(pad) + rest);
      StoreEmpties(Store(acc, Pair(k, v)), pad, rest);
      StoreLayout(Store(acc, Pair(k, v)), ks[1..], m);
    }
  }

  /** No colon and no NUL in any key or value, and no empty value. */
  ghost predicate Clean(m: map<Text, Text>) {
    forall k | k in m :: Plain(k) && Plain(m[k]) && m[k] != []
  }

  predicate Plain(t: Text) { COLON !in t && NUL !in t }

  lemma CStrOfPlain(t: Text)
    requires Plain(t)
    ensures CStr(t) == t
  {
    IndexOfPrefix(t, NUL, []);
    assert t + [] == t;
  }

  /** Whatever is stored by parsing is plain. */
  lemma {:induction false} StoredIsPlain(acc: map<Text, Text>, ks: seq<Text>, m: map<Text, Text>)
    requires forall k | k in ks :: k in m
    requires forall k | k in acc :: Plain(k) && Plain(acc[k])
    ensures forall k | k in StorePairs(acc, ks, m) :: Plain(k) && Plain(StorePairs(acc, ks, m)[k])
    decreases |ks|
  {
    if ks != [] {
      var s := Pair(ks[0], m[ks[0]]);
      CStrIsClean(ks[0]);
      CStrIsClean(m[ks[0]]);
      if |Split(s, COLON)| >= 2 {
        TokensAreClean(s, COLON, 0);
        TokensAreClean(s, COLON, 1);
      }
      StoredIsPlain(Store(acc, s), ks[1..], m);
    }
  }

  function UpTo(t: Text, c: byte): Text { t[..IndexOf(t, c)] }

  /**
   * Any header string: the key is what stands before its first colon, the value what stands between that and the
   * next colon. Without a colon, or with nothing behind it, there is no entry.
   */
  lemma StoreMeans(acc: map<Text, Text>, k: Text, v: Text)
    requires COLON !in k
    ensures Store(acc, k) == acc
    ensures Store(acc, k + [COLON] + v) == if v == [] then acc else acc[k := UpTo(v, COLON)]
  {
    FirstTokens(k, v);
    if k != [] {
      SplitOne(k, COLON);
    }
  }

  lemma FirstTokens(k: Text, v: Text)
    requires COLON !in k
    ensures var kv := Split(k + [COLON] + v, COLON);
            if v == [] then kv == [k] else |kv| >= 2 && kv[0] == k && kv[1] == UpTo(v, COLON)
  {
    SplitFirst(k, COLON, v);
    assert v == [] ==> Split(v, COLON) == [];
  }

  /** What is left of a value on its way: the part before its first NUL and its first colon. */
  function Arriving(v: Text): Text { UpTo(UpTo(v, NUL), COLON) }

  /** That is a plain value itself, or the plain part in front of whatever a NUL or a colon cuts off. */
  lemma ArrivingIs(v: Text, c: byte, rest: Text)
    requires Plain(v) && (c == COLON || c == NUL)
    ensures Arriving(v) == v && Arriving(v + [c] + rest) == v
  {
    UpToCut(v, NUL, []);
    UpToCut(v, COLON, []);
    assert v + [] == v;
    if c == NUL {
      UpToCut(v, NUL, [NUL] + rest);
      assert v + [NUL] + rest == v + ([NUL] + rest);
    } else {
      var w := UpTo(v + [COLON] + rest, NUL);
      assert (v + [COLON] + rest)[..|v| + 1] == v + [COLON];
      assert NUL !in v + [COLON];
      assert w == v + [COLON] + w[|v| + 1..] == v + ([COLON] + w[|v| + 1..]);
      UpToCut(v, COLON, [COLON] + w[|v| + 1..]);
    }
  }

  lemma UpToCut(a: Text, c: byte, rest: Text)
    requires c !in a && (rest == [] || rest[0] == c)
    ensures UpTo(a + rest, c) == a
  {
    IndexOfPrefix(a, c, rest);
  }

  /** What is stored for a value; none when there is nothing of it to read. */
  function Landing(v: Text): Option<Text> { if v == [] || v[0] == NUL then None else Some(Arriving(v)) }

  /** An entry with a plain key and any value: stored as far as it arrives, or not at all. */
  lemma StoreTruncates(acc: map<Text, Text>, k: Text, v: Text)
    requires Plain(k)
    ensures Store(acc, Pair(k, v)) == if Landing(v).None? then acc else acc[k := Landing(v).value]
  {
    CStrOfPlain(k);
    StoreMeans(acc, k, CStr(v));
  }

  /** What parsing keeps of the entries. */
  function Kept(ks: seq<Text>, m: map<Text, Text>): map<Text, Text>
    requires forall k | k in ks :: k in m
  {
    map k | k in ks && Landing(m[k]).Some? :: Landing(m[k]).value
  }

  /** With plain keys, whatever the values and the order: each value as far as it arrives. */
  lemma {:induction false} StorePairsPlain(acc: map<Text, Text>, ks: seq<Text>, m: map<Text, Text>)
    requires forall k | k in ks :: k in m && Plain(k)
    ensures StorePairs(acc, ks, m) == acc + Kept(ks, m)
    decreases |ks|
  {
    if ks == [] {
      assert acc + Kept(ks, m) == acc;
    } else {
      StoreTruncates(acc, ks[0], m[ks[0]]);
      StorePairsPlain(Store(acc, Pair(ks[0], m[ks[0]])), ks[1..], m);
      KeptStep(acc, ks, m);
    }
  }

  lemma KeptStep(acc: map<Text, Text>, ks: seq<Text>, m: map<Text, Text>)
    requires ks != [] && forall k | k in ks :: k in m
    ensures var v := Landing(m[ks[0]]);
            acc + Kept(ks, m) == (if v.None? then acc else acc[ks[0] := v.value]) + Kept(ks[1..], m)
  {
    assert forall x :: x in ks <==> x == ks[0] || x in ks[1..];
  }

  lemma KeptPlain(ks: seq<Text>, m: map<Text, Text>)
    requires IsOrder(ks, m) && forall k | k in m :: Plain(m[k])
    ensures Kept(ks, m) == map k | k in m && m[k] != [] :: m[k]
  {
    forall k | k in m ensures Landing(m[k]) == if m[k] == [] then None else Some(m[k]) {
      ArrivingIs(m[k], NUL, []);
    }
  }

  lemma StoredBackIff(ks: seq<Text>, m: map<Text, Text>)
    requires IsOrder(ks, m)
    ensures StorePairs(map[], ks, m) == m <==> Clean(m)
  {
    var r := StorePairs(map[], ks, m);
    StoredIsPlain(map[], ks, m);
    if forall k | k in m :: Plain(k) && Plain(m[k]) {
      StorePairsPlain(map[], ks, m);
      KeptPlain(ks, m);
    }
  }

  /** The packet as its receiver holds it: a null data pointer has become an empty buffer. */
  function Received(p: Packet): Packet { p.(data := Some(p.Payload())) }

  lemma WireParts(p: Packet, ks: seq<Text>)
    requires p.Fits() && IsOrder(ks, p.xheader)
    ensures var f := ToWire(p, ks);
            && |f| == p.totalLen && f[0] == p.version && f[1] == p.kind
            && f[2..4] == Be16(p.headerLen) && f[4..8] == Be32(p.totalLen)
            && f[HEADER_LEN..] == Layout(ks, p.xheader) + p.Payload()
            && f[p.headerLen..p.totalLen] == p.Payload()
  {
    LayoutSize(ks, p.xheader);
    var f := ToWire(p, ks);
    assert f == FixedHeader(p) + (Layout(ks, p.xheader) + p.Payload());
    assert f[2..4] == FixedHeader(p)[2..4] && f[4..8] == FixedHeader(p)[4..8];
  }

  lemma WireStrings(p: Packet, ks: seq<Text>)
    requires p.Fits() && IsOrder(ks, p.xheader)
    ensures Strings(ToWire(p, ks)[HEADER_LEN..], 0, p.headerLen - HEADER_LEN) == Some(LayoutStrings(ks, p.xheader))
  {
    WireParts(p, ks);
    LayoutSize(ks, p.xheader);
    ReadLayout(ToWire(p, ks)[HEADER_LEN..], 0, ks, p.xheader, p.headerLen - HEADER_LEN);
  }

  /** A frame with known lengths and header strings. */
  lemma ParseKnown(f: seq<byte>, headerLen: u16, totalLen: u32, ss: seq<Text>)
    requires HEADER_LEN <= headerLen <= totalLen <= |f|
    requires Strings(f[HEADER_LEN..], 0, headerLen - HEADER_LEN) == Some(ss)
    ensures ParseFields(f, headerLen, totalLen)
         == Parsed(Packet(f[0], f[1], StoreAll(map[], ss), Some(f[headerLen..totalLen]), headerLen, totalLen))
  {
    SmallDifferences(headerLen, totalLen);
  }

  lemma SmallDifferences(h: u16, t: u32)
    requires HEADER_LEN <= h <= t
    ensures (h - HEADER_LEN) % TWO_16 == h - HEADER_LEN && (t - h) % TWO_32 == t - h
  {
  }

  predicate RawShort(totalLen: u32) { totalLen % TWO_24 == 0 && totalLen / TWO_24 < HEADER_LEN }

  lemma ParseSteps(f: seq<byte>, headerLen: u16, totalLen: u32)
    requires |f| >= HEADER_LEN && f[2..4] == Be16(headerLen) && f[4..8] == Be32(totalLen)
    ensures ParseFrame(f) == if RawShort(totalLen) then Rejected else ParseFields(f, headerLen, totalLen)
  {
    BigEndianRoundTrip(headerLen);
    BigEndianRoundTrip(totalLen);
    RawLengthShort(totalLen);
  }

  lemma WireFields(p: Packet, ks: seq<Text>)
    requires p.Fits() && IsOrder(ks, p.xheader)
    ensures |ToWire(p, ks)| >= HEADER_LEN
    ensures ParseFields(ToWire(p, ks), p.headerLen, p.totalLen)
         == Parsed(Received(p).(xheader := StorePairs(map[], ks, p.xheader)))
  {
    WireParts(p, ks);
    WireStrings(p, ks);
    ParseKnown(ToWire(p, ks), p.headerLen, p.totalLen, LayoutStrings(ks, p.xheader));
    StoreLayout(map[], ks, p.xheader);
  }

  /** What the receiver makes of any packet whose lengths fit. */
  lemma WireParses(p: Packet, ks: seq<Text>)
    requires p.Fits() && IsOrder(ks, p.xheader)
    ensures ParseFrame(ToWire(p, ks))
         == if RawShort(p.totalLen) then Rejected
            else Parsed(Received(p).(xheader := StorePairs(map[], ks, p.xheader)))
  {
    WireParts(p, ks);
    ParseSteps(ToWire(p, ks), p.headerLen, p.totalLen);
    WireFields(p, ks);
  }

  /**
   * The packet round trip, with its exact condition: the receiver gets the packet back if and only if the
   * headers are clean and the total length is not a multiple of 2^24 by one to seven.
   */
  lemma PacketRoundTripIff(p: Packet, ks: seq<Text>)
    requires p.Fits() && IsOrder(ks, p.xheader)
    ensures ParseFrame(ToWire(p, ks)) == Parsed(Received(p)) <==> Clean(p.xheader) && !RawShort(p.totalLen)
  {
    WireParses(p, ks);
    StoredBackIff(ks, p.xheader);
  }
}
