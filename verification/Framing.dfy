// read_cb: cutting a TCP byte stream into packets again.
module Framing {
  import opened Octets
  import opened Wire

  /** Frames one callback hands over at most: the counter is tested after the frame it counts. */
  const CALLBACK_LIMIT := 1025

  /** The buffer length as the 32-bit variable holds it. */
  function RecvLen(n: nat): (r: nat)
    ensures r <= n && (n < TWO_32 ==> r == n)
  {
    n % TWO_32
  }

  /**
   * isExtraAllDataNow: the length of the frame at the front of the buffer, or 0 when it is not complete or
   * of another protocol version.
   */
  function WantedLen(buf: seq<byte>): (n: nat)
    ensures n <= |buf|
  {
    var recvLen := RecvLen(|buf|);
    if recvLen < HEADER_LEN || buf[0] != VERSION then 0
    else
      var total := FromBe32(buf[4..8]);
      if recvLen < total then 0 else total
  }

  /** The input buffer of a connection, what recv was given, and whether the length assertion failed. */
  datatype Stream = Stream(delivered: seq<seq<byte>>, input: seq<byte>, aborted: bool)

  /** The extraction loop with n frames still allowed. */
  function Drain(s: Stream, n: nat): Stream
    decreases |s.input|
  {
    var want := WantedLen(s.input);
    if n == 0 || want == 0 then s
    else if want >= TWO_31 then Stream(s.delivered, s.input[want..], true)
    else Drain(Stream(s.delivered + [s.input[..want]], s.input[want..], false), n - 1)
  }

  /** One arrival: the fragment joins the input buffer and read_cb runs once. */
  function Arrive(s: Stream, fragment: seq<byte>): Stream {
    if s.aborted then s else Drain(s.(input := s.input + fragment), CALLBACK_LIMIT)
  }

  function ArriveAll(s: Stream, fragments: seq<seq<byte>>): Stream
    decreases |fragments|
  {
    if fragments == [] then s else ArriveAll(Arrive(s, fragments[0]), fragments[1..])
  }

  class Connection {
    var input: seq<byte>
    var delivered: seq<seq<byte>>
    var aborted: bool

    function Value(): Stream
      reads this
    {
      Stream(delivered, input, aborted)
    }

    constructor ()
      ensures Value() == Stream([], [], false)
    {
      input, delivered, aborted := [], [], false;
    }

    method ReadCb()
      requires !aborted
      modifies this
      ensures Value() == Drain(old(Value()), CALLBACK_LIMIT)
    {
      if RecvLen(|input|) == 0 {
        return;
      }
      var limit, i := CALLBACK_LIMIT - 1, 0;
      while true
        invariant 0 <= i <= limit && !aborted
        invariant Drain(Value(), CALLBACK_LIMIT - i) == Drain(old(Value()), CALLBACK_LIMIT)
        decreases limit - i
      {
        var want := WantedLen(input);
        if want == 0 {
          break;
        }
        var frame := input[..want];
        input := input[want..];
        if want >= TWO_31 {
          aborted := true;
          return;
        }
        delivered := delivered + [frame];
        i := i + 1;
        if i - 1 >= limit {
          break;
        }
      }
    }

    method Receive(fragment: seq<byte>)
      modifies this
      ensures Value() == Arrive(old(Value()), fragment)
    {
      if !aborted {
        input := input + fragment;
        ReadCb();
      }
    }
  }

  // When nothing is handed over.

  /** The length a frame of at least eight bytes declares, most significant byte first. */
  function Declared(buf: seq<byte>): nat
    requires |buf| >= 8
  {
    buf[4] as int * 0x100_0000 + buf[5] as int * 0x1_0000 + buf[6] as int * 0x100 + buf[7] as int
  }

  /**
   * A callback hands over nothing, however often it may, if and only if the first byte is not the protocol
   * version 1, or the frame in front is not all there as far as 32 bits can tell, or declares that it is empty.
   */
  lemma StuckIff(s: Stream, n: nat)
    requires n > 0 && !s.aborted
    ensures Drain(s, n) == s
       <==> |s.input| % 0x1_0000_0000 < 8 || s.input[0] != 1
            || |s.input| % 0x1_0000_0000 < Declared(s.input) || Declared(s.input) == 0
  {
    var want := WantedLen(s.input);
    if 0 < want < TWO_31 {
      DrainGrows(Stream(s.delivered + [s.input[..want]], s.input[want..], false), n - 1);
    }
  }

  lemma {:induction false} DrainGrows(s: Stream, n: nat)
    ensures |Drain(s, n).delivered| >= |s.delivered|
    decreases n
  {
    var want := WantedLen(s.input);
    if n > 0 && 0 < want < TWO_31 {
      DrainGrows(Stream(s.delivered + [s.input[..want]], s.input[want..], false), n - 1);
    }
  }

  /** A byte of another protocol version in front stops the connection for good: whatever comes piles up behind it. */
  lemma {:induction false} OtherVersionStops(s: Stream, fragments: seq<seq<byte>>)
    requires !s.aborted && s.input != [] && s.input[0] != 1
    ensures ArriveAll(s, fragments) == s.(input := s.input + Concat(fragments))
    decreases |fragments|
  {
    if fragments == [] {
      assert s.input + [] == s.input;
    } else {
      var f, t := fragments[0], s.(input := s.input + fragments[0]);
      assert t.input[0] == s.input[0];
      StuckIff(t, CALLBACK_LIMIT);
      Associates(s.input, f, Concat(fragments[1..]));
      OtherVersionStops(t, fragments[1..]);
    }
  }

  /** A complete frame that declares 2 GiB or more is cut off, not handed over, and ends the program. */
  lemma HugeFrameAborts(s: Stream, n: nat)
    requires n > 0 && !s.aborted && |s.input| >= 8 && s.input[0] == 1
    requires 0x8000_0000 <= Declared(s.input) <= |s.input| % 0x1_0000_0000
    ensures Drain(s, n) == Stream(s.delivered, s.input[Declared(s.input)..], true)
    ensures forall fragments :: ArriveAll(Drain(s, n), fragments) == Drain(s, n)
  {
    forall fragments ensures ArriveAll(Drain(s, n), fragments) == Drain(s, n) {
      AbortedStays(Drain(s, n), fragments);
    }
  }

  lemma {:induction false} AbortedStays(s: Stream, fragments: seq<seq<byte>>)
    requires s.aborted
    ensures ArriveAll(s, fragments) == s
    decreases |fragments|
  {
    if fragments != [] {
      AbortedStays(s, fragments[1..]);
    }
  }

  /** A frame that can be told from its own first eight bytes. */
  predicate Framed(p: seq<byte>) {
    HEADER_LEN <= |p| < TWO_31 && p[0] == VERSION && FromBe32(p[4..8]) == |p|
  }

  predicate AllFramed(ps: seq<seq<byte>>) { forall p | p in ps :: Framed(p) }

  /** Everything LanSyncPkt writes below 2 GiB is such a frame. */
  lemma WrittenIsFramed(p: Packet, ks: seq<Text>)
    requires p.Fits() && IsOrder(ks, p.xheader) && p.version == VERSION && p.totalLen < TWO_31
    ensures Framed(ToWire(p, ks))
  {
    WireParts(p, ks);
    BigEndianRoundTrip(p.totalLen);
  }

  /** The number of leading packets that n bytes hold completely. */
  function Complete(ps: seq<seq<byte>>, n: int): (k: nat)
    ensures k <= |ps|
  {
    if ps == [] || |ps[0]| > n then 0 else 1 + Complete(ps[1..], n - |ps[0]|)
  }

  /** The part of the first header that decides is there once eight bytes are. */
  lemma SameHeader(buf: seq<byte>, future: seq<byte>, p: seq<byte>, rest: seq<byte>)
    requires buf + future == p + rest && HEADER_LEN <= |buf| && HEADER_LEN <= |p|
    ensures buf[0] == p[0] && buf[4..8] == p[4..8]
  {
    var s := buf + future;
    assert buf[0] == s[0] && p[0] == (p + rest)[0];
    assert buf[4..8] == s[4..8] && p[4..8] == (p + rest)[4..8];
  }

  /** At the front of a stream of packets, the buffer wants exactly the first packet, once it is all there. */
  lemma WantsPacket(buf: seq<byte>, future: seq<byte>, p: seq<byte>, rest: seq<byte>)
    requires Framed(p) && buf + future == p + rest
    ensures WantedLen(buf) == if RecvLen(|buf|) < |p| then 0 else |p|
  {
    if |buf| >= HEADER_LEN {
      SameHeader(buf, future, p, rest);
    }
  }

  lemma WantsFirst(buf: seq<byte>, future: seq<byte>, ps: seq<seq<byte>>)
    requires AllFramed(ps) && buf + future == Concat(ps)
    ensures WantedLen(buf) != 0 ==> ps != [] && WantedLen(buf) == |ps[0]|
    ensures WantedLen(buf) == 0 && |buf| < TWO_32 ==> Complete(ps, |buf|) == 0
  {
    if ps == [] {
      assert |buf + future| == 0;
    } else {
      assert ps[0] in ps;
      WantsPacket(buf, future, ps[0], Concat(ps[1..]));
    }
  }

  /** The state of a stream in which k packets of ps have been handed over. */
  ghost predicate Handed(s: Stream, s0: Stream, ps: seq<seq<byte>>, k: nat, future: seq<byte>) {
    && !s.aborted && k <= |ps|
    && s.delivered == s0.delivered + ps[..k]
    && s.input + future == Concat(ps[k..])
  }

  /**
   * One callback, exactly: with the buffer below 4 GiB it hands over the packets that are complete, up to
   * its cap, and leaves the rest of the stream in the buffer.
   */
  lemma {:induction false} DrainPackets(s: Stream, n: nat, future: seq<byte>, ps: seq<seq<byte>>) returns (k: nat)
    requires AllFramed(ps) && s.input + future == Concat(ps) && !s.aborted
    ensures k <= n && Handed(Drain(s, n), s, ps, k, future)
    ensures |s.input| < TWO_32 ==> k == Min(n, Complete(ps, |s.input|))
    decreases n
  {
    WantsFirst(s.input, future, ps);
    var want := WantedLen(s.input);
    if n == 0 || want == 0 {
      k := 0;
      assert s.delivered + ps[..0] == s.delivered && ps[0..] == ps;
    } else {
      assert ps[0] in ps;
      CutTwice(s.input, future, ps[0], Concat(ps[1..]));
      var s' := Stream(s.delivered + [ps[0]], s.input[want..], false);
      var j := DrainPackets(s', n - 1, future, ps[1..]);
      k := j + 1;
      assert s.delivered + ps[..k] == s.delivered + [ps[0]] + ps[1..][..j];
      assert ps[k..] == ps[1..][j..];
    }
  }

  lemma {:induction false} CompleteMore(ps: seq<seq<byte>>, k: nat, n: nat, extra: nat)
    requires k <= |ps| && |Concat(ps[..k])| == n
    ensures Complete(ps, n + extra) == k + Complete(ps[k..], extra)
    decreases k
  {
    if k == 0 {
      assert ps[0..] == ps && ps[..0] == [];
    } else {
      assert ps[..k][1..] == ps[1..][..k - 1] && ps[..k][0] == ps[0];
      CompleteMore(ps[1..], k - 1, n - |ps[0]|, extra);
      assert ps[1..][k - 1..] == ps[k..];
    }
  }

  /** After any fragments: the first packets, in order and unchanged, and not a byte lost or invented. */
  ghost predicate InStep(s: Stream, ps: seq<seq<byte>>, received: seq<byte>) {
    && !s.aborted
    && |s.delivered| <= |ps| && s.delivered == ps[..|s.delivered|]
    && Concat(s.delivered) + s.input == received
  }

  lemma ArriveInStep(s: Stream, fragment: seq<byte>, ps: seq<seq<byte>>, received: seq<byte>, future: seq<byte>)
    requires AllFramed(ps) && InStep(s, ps, received) && received + fragment + future == Concat(ps)
    ensures InStep(Arrive(s, fragment), ps, received + fragment)
    ensures |s.input + fragment| < TWO_32 ==>
      |Arrive(s, fragment).delivered|
      == Min(|s.delivered| + CALLBACK_LIMIT, Complete(ps, |received + fragment|))
  {
    var d := |s.delivered|;
    var k := ArriveHands(s, fragment, ps, received, future);
    HandedCount(ps, d, k, s.(input := s.input + fragment), Arrive(s, fragment), future, received + fragment);
  }

  /** Where that leaves the stream. */
  lemma HandedCount(ps: seq<seq<byte>>, d: nat, k: nat, s: Stream, t: Stream, future: seq<byte>, now: seq<byte>)
    requires d <= |ps| && s.delivered == ps[..d] && |Concat(ps[..d])| + |s.input| == |now|
    requires Handed(t, s, ps[d..], k, future) && now + future == Concat(ps)
    requires |s.input| < TWO_32 ==> k == Min(CALLBACK_LIMIT, Complete(ps[d..], |s.input|))
    ensures InStep(t, ps, now)
    ensures |s.input| < TWO_32 ==> |t.delivered| == Min(d + CALLBACK_LIMIT, Complete(ps, |now|))
  {
    HandedInStep(ps, d, k, t, future, now);
    CompleteMore(ps, d, |Concat(ps[..d])|, |s.input|);
  }

  /** What the callback hands over of the packets that are still to come. */
  lemma ArriveHands(s: Stream, fragment: seq<byte>, ps: seq<seq<byte>>, received: seq<byte>, future: seq<byte>)
    returns (k: nat)
    requires AllFramed(ps) && InStep(s, ps, received) && received + fragment + future == Concat(ps)
    ensures var d, input := |s.delivered|, s.input + fragment;
            && |Concat(ps[..d])| + |input| == |received + fragment|
            && Handed(Arrive(s, fragment), s.(input := input), ps[d..], k, future)
            && (|input| < TWO_32 ==> k == Min(CALLBACK_LIMIT, Complete(ps[d..], |input|)))
  {
    var d, input := |s.delivered|, s.input + fragment;
    Associates(Concat(ps[..d]), s.input, fragment);
    RestOfStream(ps, d, input, future, received + fragment);
    assert AllFramed(ps[d..]);
    k := DrainPackets(s.(input := input), CALLBACK_LIMIT, future, ps[d..]);
  }

  lemma Associates(a: seq<byte>, b: seq<byte>, c: seq<byte>)
    ensures (a + b) + c == a + (b + c)
  {
  }

  lemma HandedInStep(ps: seq<seq<byte>>, d: nat, k: nat, t: Stream, future: seq<byte>, now: seq<byte>)
    requires d + k <= |ps| && !t.aborted && now + future == Concat(ps)
    requires t.delivered == ps[..d] + ps[d..][..k] && t.input + future == Concat(ps[d..][k..])
    ensures InStep(t, ps, now) && |t.delivered| == d + k
  {
    assert t.delivered == ps[..d + k] && ps[d..][k..] == ps[d + k..];
    RestBack(ps, d + k, t.input, future, now);
  }

  lemma RestOfStream(ps: seq<seq<byte>>, d: nat, input: seq<byte>, future: seq<byte>, received: seq<byte>)
    requires d <= |ps| && received == Concat(ps[..d]) + input && received + future == Concat(ps)
    ensures input + future == Concat(ps[d..])
  {
    var a := Concat(ps[..d]);
    assert ps == ps[..d] + ps[d..];
    ConcatAppend(ps[..d], ps[d..]);
    CutTwice(received, future, a, Concat(ps[d..]));
    assert received[|a|..] == input;
  }

  lemma RestBack(ps: seq<seq<byte>>, d: nat, input: seq<byte>, future: seq<byte>, received: seq<byte>)
    requires d <= |ps| && input + future == Concat(ps[d..]) && received + future == Concat(ps)
    ensures Concat(ps[..d]) + input == received
  {
    var a := Concat(ps[..d]);
    assert ps == ps[..d] + ps[d..];
    ConcatAppend(ps[..d], ps[d..]);
    Associates(a, input, future);
    CutTwice(received, future, a + input, future);
    assert received[..|a + input|] == received;
  }

  /** Reassembly is safe for every way of cutting the stream, however the callbacks fall behind. */
  lemma {:induction false} ReassemblyFrom(s: Stream, fragments: seq<seq<byte>>, ps: seq<seq<byte>>,
                                          received: seq<byte>, future: seq<byte>)
    requires AllFramed(ps) && InStep(s, ps, received)
    requires received + Concat(fragments) + future == Concat(ps)
    ensures InStep(ArriveAll(s, fragments), ps, received + Concat(fragments))
    decreases |fragments|
  {
    if fragments == [] {
      assert received + [] == received;
    } else {
      var f, rest := fragments[0], Concat(fragments[1..]);
      Associates(received, f, rest);
      Associates(received + f, rest, future);
      ArriveInStep(s, f, ps, received, rest + future);
      ReassemblyFrom(Arrive(s, f), fragments[1..], ps, received + f, future);
    }
  }

  const START := Stream([], [], false)

  lemma Reassembly(fragments: seq<seq<byte>>, ps: seq<seq<byte>>, future: seq<byte>)
    requires AllFramed(ps) && Concat(fragments) + future == Concat(ps)
    ensures InStep(ArriveAll(START, fragments), ps, Concat(fragments))
  {
    assert [] + Concat(fragments) == Concat(fragments);
    assert InStep(START, ps, []) by { assert ps[..0] == [] && Concat<byte>([]) + [] == []; }
    ReassemblyFrom(START, fragments, ps, [], future);
  }

  /**
   * The last arrival decides about completeness: every packet whose bytes have all arrived has been handed
   * over if and only if there were at most 1025 of them to hand over in the last callback.
   */
  lemma LastArrivalDecides(fragments: seq<seq<byte>>, last: seq<byte>, ps: seq<seq<byte>>, future: seq<byte>)
    requires AllFramed(ps) && Concat(fragments) + last + future == Concat(ps)
    requires |ArriveAll(START, fragments).input + last| < TWO_32
    ensures var before, after := ArriveAll(START, fragments), ArriveAll(START, fragments + [last]);
            var complete := Complete(ps, |Concat(fragments) + last|);
            && after == Arrive(before, last)
            && (after.delivered == ps[..complete] <==> complete - |before.delivered| <= 1025)
  {
    var before := ArriveAll(START, fragments);
    ReassemblySoFar(fragments, last, ps, future);
    ArrivalDecides(before, last, ps, Concat(fragments), future);
    ArriveAllSnoc(START, fragments, last);
  }

  lemma ReassemblySoFar(fragments: seq<seq<byte>>, last: seq<byte>, ps: seq<seq<byte>>, future: seq<byte>)
    requires AllFramed(ps) && Concat(fragments) + last + future == Concat(ps)
    ensures InStep(ArriveAll(START, fragments), ps, Concat(fragments))
  {
    Associates(Concat(fragments), last, future);
    Reassembly(fragments, ps, last + future);
  }

  lemma ArrivalDecides(s: Stream, fragment: seq<byte>, ps: seq<seq<byte>>, received: seq<byte>, future: seq<byte>)
    requires AllFramed(ps) && InStep(s, ps, received) && received + fragment + future == Concat(ps)
    requires |s.input + fragment| < TWO_32
    ensures Arrive(s, fragment).delivered == ps[..Complete(ps, |received + fragment|)]
       <==> Complete(ps, |received + fragment|) - |s.delivered| <= CALLBACK_LIMIT
  {
    ArriveInStep(s, fragment, ps, received, future);
    SamePrefix(ps, |Arrive(s, fragment).delivered|, Complete(ps, |received + fragment|));
  }

  lemma SamePrefix<X>(ps: seq<X>, a: nat, b: nat)
    requires a <= |ps| && b <= |ps|
    ensures ps[..a] == ps[..b] <==> a == b
  {
    assert |ps[..a]| == a && |ps[..b]| == b;
  }

  lemma {:induction false} ArriveAllSnoc(s: Stream, fragments: seq<seq<byte>>, last: seq<byte>)
    ensures ArriveAll(s, fragments + [last]) == Arrive(ArriveAll(s, fragments), last)
    decreases |fragments|
  {
    if fragments != [] {
      assert (fragments + [last])[1..] == fragments[1..] + [last];
      ArriveAllSnoc(Arrive(s, fragments[0]), fragments[1..], last);
    } else {
      assert fragments + [last] == [last];
    }
  }

  /** Two ways of cutting the same bytes end alike, unless a final callback ran into its cap. */
  lemma FragmentationIndependence(f: seq<seq<byte>>, a: seq<byte>, g: seq<seq<byte>>, b: seq<byte>,
                                  ps: seq<seq<byte>>, future: seq<byte>)
    requires AllFramed(ps)
    requires Concat(f) + a == Concat(g) + b && Concat(f) + a + future == Concat(ps)
    requires |ArriveAll(START, f).input + a| < TWO_32 && |ArriveAll(START, g).input + b| < TWO_32
    requires Complete(ps, |Concat(f) + a|) - |ArriveAll(START, f).delivered| <= CALLBACK_LIMIT
    requires Complete(ps, |Concat(g) + b|) - |ArriveAll(START, g).delivered| <= CALLBACK_LIMIT
    ensures ArriveAll(START, f + [a]) == ArriveAll(START, g + [b])
  {
    LastArrivalDecides(f, a, ps, future);
    LastArrivalDecides(g, b, ps, future);
    ConcatSnoc(f, a);
    ConcatSnoc(g, b);
    Reassembly(f + [a], ps, future);
    Reassembly(g + [b], ps, future);
    var s, t := ArriveAll(START, f + [a]), ArriveAll(START, g + [b]);
    var d := Concat(s.delivered);
    assert (d + s.input)[|d|..] == s.input && (d + t.input)[|d|..] == t.input;
  }

  // From packets to packets.

  /** f is what write makes of a packet that can make the round trip. */
  ghost predicate Ships(p: Packet, ks: seq<Text>, f: seq<byte>) {
    && p.Fits() && IsOrder(ks, p.xheader) && f == ToWire(p, ks)
    && p.version == VERSION && p.totalLen < TWO_31 && Clean(p.xheader) && !RawShort(p.totalLen)
  }

  ghost predicate AllShip(ps: seq<Packet>, orders: seq<seq<Text>>, frames: seq<seq<byte>>) {
    |ps| == |orders| == |frames| && forall i | 0 <= i < |ps| :: Ships(ps[i], orders[i], frames[i])
  }

  /** What the receiver makes of the frames are the first packets, in order. */
  predicate ParsedInOrder(frames: seq<seq<byte>>, ps: seq<Packet>) {
    |frames| <= |ps| && forall i | 0 <= i < |frames| :: ParseFrame(frames[i]) == Parsed(Received(ps[i]))
  }

  lemma ShippedIsFramed(p: Packet, ks: seq<Text>, f: seq<byte>)
    requires Ships(p, ks, f)
    ensures Framed(f) && ParseFrame(f) == Parsed(Received(p))
  {
    WrittenIsFramed(p, ks);
    PacketRoundTripIff(p, ks);
  }

  lemma AllShippedAreFramed(ps: seq<Packet>, orders: seq<seq<Text>>, frames: seq<seq<byte>>)
    requires AllShip(ps, orders, frames)
    ensures AllFramed(frames) && ParsedInOrder(frames, ps)
  {
    forall i | 0 <= i < |ps| ensures Framed(frames[i]) && ParseFrame(frames[i]) == Parsed(Received(ps[i])) {
      ShippedIsFramed(ps[i], orders[i], frames[i]);
    }
  }

  /** Whatever the fragments, parsing what was handed over gives the first packets that were written, in order. */
  lemma PacketsArrive(ps: seq<Packet>, orders: seq<seq<Text>>, frames: seq<seq<byte>>, fragments: seq<seq<byte>>,
                      future: seq<byte>)
    requires AllShip(ps, orders, frames) && Concat(fragments) + future == Concat(frames)
    ensures ParsedInOrder(ArriveAll(START, fragments).delivered, ps)
  {
    AllShippedAreFramed(ps, orders, frames);
    Reassembly(fragments, frames, future);
    FirstParsed(frames, ps, |ArriveAll(START, fragments).delivered|);
  }

  lemma FirstParsed(frames: seq<seq<byte>>, ps: seq<Packet>, n: nat)
    requires ParsedInOrder(frames, ps) && n <= |frames|
    ensures ParsedInOrder(frames[..n], ps)
  {
  }

  lemma {:induction false} AllComplete(frames: seq<seq<byte>>)
    ensures Complete(frames, |Concat(frames)|) == |frames|
  {
    if frames != [] {
      AllComplete(frames[1..]);
    }
  }

  /** And once all the bytes are there it gives all of them, unless the last callback had more than 1025 to do. */
  lemma AllPacketsArrive(ps: seq<Packet>, orders: seq<seq<Text>>, frames: seq<seq<byte>>, fragments: seq<seq<byte>>,
                         last: seq<byte>)
    requires AllShip(ps, orders, frames) && Concat(fragments) + last == Concat(frames)
    requires |ArriveAll(START, fragments).input + last| < TWO_32
    ensures ParsedInOrder(ArriveAll(START, fragments + [last]).delivered, ps)
    ensures |ArriveAll(START, fragments + [last]).delivered| == |ps|
       <==> |ps| - |ArriveAll(START, fragments).delivered| <= 1025
  {
    AllShippedAreFramed(ps, orders, frames);
    AllHere(frames, fragments, last);
    ConcatSnoc(fragments, last);
    NothingToCome(fragments, last, frames);
    PacketsArrive(ps, orders, frames, fragments + [last], []);
  }

  lemma NothingToCome(fragments: seq<seq<byte>>, last: seq<byte>, frames: seq<seq<byte>>)
    requires Concat(fragments) + last == Concat(frames)
    ensures Concat(fragments) + last + [] == Concat(frames) && Concat(fragments + [last]) + [] == Concat(frames)
  {
    ConcatSnoc(fragments, last);
    assert Concat(frames) + [] == Concat(frames);
  }

  lemma AllHere(frames: seq<seq<byte>>, fragments: seq<seq<byte>>, last: seq<byte>)
    requires AllFramed(frames) && Concat(fragments) + last == Concat(frames)
    requires |ArriveAll(START, fragments).input + last| < TWO_32
    ensures |ArriveAll(START, fragments + [last]).delivered| == |frames|
       <==> |frames| - |ArriveAll(START, fragments).delivered| <= CALLBACK_LIMIT
  {
    var d := ArriveAll(START, fragments + [last]).delivered;
    NothingToCome(fragments, last, frames);
    AllComplete(frames);
    LastArrivalDecides(fragments, last, frames, []);
    Reassembly(fragments + [last], frames, []);
    SamePrefix(frames, |d|, |frames|);
  }
}
