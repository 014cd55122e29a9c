// What the receiver makes of any frame, whoever wrote it.
module Receiving {
  import opened Octets
  import opened Wire

  /** Strings as they travel, each with its NUL. */
  function Lines(ss: seq<Text>): seq<byte> { if ss == [] then [] else ss[0] + [NUL] + Lines(ss[1..]) }

  /** The last of the strings begins before the limit and reaches it. */
  predicate Crosses(ss: seq<Text>, pos: nat, limit: nat) {
    limit <= pos + |Lines(ss)| && (ss != [] ==> pos + |Lines(ss[..|ss| - 1])| < limit)
  }

  lemma CrossesRest(ss: seq<Text>, pos: nat, limit: nat)
    requires ss != [] && Crosses(ss, pos, limit)
    ensures pos < limit && Crosses(ss[1..], pos + |ss[0]| + 1, limit)
  {
    var init := ss[..|ss| - 1];
    if |ss| > 1 {
      assert init[0] == ss[0] && init[1..] == ss[1..][..|ss| - 2];
    }
  }

  /** The header loop reads every string that begins before the limit, whole, and no other. */
  lemma {:induction false} ReadLines(body: seq<byte>, pos: nat, ss: seq<Text>, limit: nat)
    requires (forall s | s in ss :: NUL !in s) && Holds(body, pos, Lines(ss))
    requires Crosses(ss, pos, limit) && pos + |Lines(ss)| < TWO_16
    ensures Strings(body, pos, limit) == Some(ss)
    decreases |ss|
  {
    if ss != [] {
      var s, rest := ss[0], ss[1..];
      assert s in ss;
      CrossesRest(ss, pos, limit);
      FirstLine(body, pos, s, Lines(rest));
      assert |Lines(ss)| == |s| + 1 + |Lines(rest)|;
      ReadLines(body, pos + |s| + 1, rest, limit);
      OneMoreLine(body, pos, s, rest, limit);
      assert [s] + rest == ss;
    }
  }

  lemma OneMoreLine(body: seq<byte>, pos: nat, s: Text, rest: seq<Text>, limit: nat)
    requires pos < limit && pos + |s| < |body| && body[pos + |s|] == NUL && pos + |s| + 1 < TWO_16
    requires NUL !in s && body[pos..pos + |s|] == s && Strings(body, pos + |s| + 1, limit) == Some(rest)
    ensures Strings(body, pos, limit) == Some([s] + rest)
  {
    ReadString(body, pos, s, limit);
  }

  lemma FirstLine(body: seq<byte>, pos: nat, s: Text, rest: seq<byte>)
    requires Holds(body, pos, s + [NUL] + rest)
    ensures pos + |s| < |body| && body[pos..pos + |s|] == s && body[pos + |s|] == NUL
    ensures Holds(body, pos + |s| + 1, rest)
  {
    HoldsParts(body, pos, s + [NUL], rest);
    HoldsParts(body, pos, s, [NUL]);
    assert body[pos + |s|..pos + |s| + 1][0] == NUL;
  }

  /** The first eight bytes of a frame. */
  function FirstBytes(version: byte, kind: byte, headerLen: u16, totalLen: u32): (h: seq<byte>)
    ensures |h| == 8
  {
    [version, kind, headerLen / 0x100, headerLen % 0x100,
     totalLen / 0x100_0000, totalLen / 0x1_0000 % 0x100, totalLen / 0x100 % 0x100, totalLen % 0x100]
  }

  /**
   * Any frame whose header part is made of strings, with or without further bytes behind it: version, type and
   * lengths are read from their places, the strings are stored one after the other, and the data begins where the
   * header length says and ends where the total length says.
   */
  lemma AnyFrame(version: byte, kind: byte, headerLen: u16, totalLen: u32, body: seq<byte>, ss: seq<Text>)
    requires 8 <= headerLen <= totalLen <= 8 + |body|
    requires (forall s | s in ss :: NUL !in s) && |Lines(ss)| <= |body| && body[..|Lines(ss)|] == Lines(ss)
    requires Crosses(ss, 0, headerLen - 8) && |Lines(ss)| < TWO_16
    ensures ParseFrame(FirstBytes(version, kind, headerLen, totalLen) + body)
         == if RawShort(totalLen) then Rejected
            else Parsed(Packet(version, kind, StoreAll(map[], ss), Some(body[headerLen - 8..totalLen - 8]),
                               headerLen, totalLen))
  {
    FrameParts(version, kind, headerLen, totalLen, body);
    KnownBody(FirstBytes(version, kind, headerLen, totalLen) + body, headerLen, totalLen, body, ss);
  }

  lemma KnownBody(f: seq<byte>, headerLen: u16, totalLen: u32, body: seq<byte>, ss: seq<Text>)
    requires 8 <= headerLen <= totalLen <= |f| && f[2..4] == Be16(headerLen) && f[4..8] == Be32(totalLen)
    requires f[8..] == body && Holds(body, 0, Lines(ss)) && forall s | s in ss :: NUL !in s
    requires Crosses(ss, 0, headerLen - 8) && |Lines(ss)| < TWO_16
    ensures ParseFrame(f)
         == if RawShort(totalLen) then Rejected
            else Parsed(Packet(f[0], f[1], StoreAll(map[], ss), Some(f[headerLen..totalLen]), headerLen, totalLen))
  {
    ParseSteps(f, headerLen, totalLen);
    ReadLines(body, 0, ss, headerLen - 8);
    ParseKnown(f, headerLen, totalLen, ss);
  }

  lemma FrameParts(version: byte, kind: byte, headerLen: u16, totalLen: u32, body: seq<byte>)
    requires 8 <= headerLen <= totalLen <= 8 + |body|
    ensures var f := FirstBytes(version, kind, headerLen, totalLen) + body;
            && f[0] == version && f[1] == kind && f[2..4] == Be16(headerLen) && f[4..8] == Be32(totalLen)
            && f[8..] == body && f[headerLen..totalLen] == body[headerLen - 8..totalLen - 8]
  {
    LengthBytes(version, kind, headerLen, totalLen, body);
  }

  lemma LengthBytes(version: byte, kind: byte, headerLen: u16, totalLen: u32, body: seq<byte>)
    ensures var f := FirstBytes(version, kind, headerLen, totalLen) + body;
            f[2..4] == Be16(headerLen) && f[4..8] == Be32(totalLen)
  {
    var h := FirstBytes(version, kind, headerLen, totalLen);
    var f := h + body;
    BigEndianRoundTrip(headerLen);
    BigEndianRoundTrip(totalLen);
    assert f[2..4] == h[2..4] && f[4..8] == h[4..8];
  }

  /** Which frames are rejected: those whose length, before it is swapped, is below eight. */
  lemma RejectedIff(f: seq<byte>)
    requires |f| >= 8
    ensures ParseFrame(f) == Rejected <==> f[4] < 8 && f[5] == 0 && f[6] == 0 && f[7] == 0
  {
  }

  /** The loop leaves the frame, or wraps its 16-bit counter, in a string without a NUL before the end or 2^16. */
  lemma Unterminated(body: seq<byte>, pos: nat, limit: nat)
    requires pos < limit && pos <= |body|
    requires forall i | pos <= i < |body| && i + 1 < 0x1_0000 :: body[i] != NUL
    ensures Strings(body, pos, limit) == None
  {
    NoNulBefore(body, pos, FindNul(body, pos));
  }

  lemma {:induction false} NoNulBefore(body: seq<byte>, pos: nat, end: nat)
    requires pos <= |body| && end == FindNul(body, pos)
    ensures end < |body| ==> body[end] == NUL
    decreases |body| - pos
  {
    if pos < |body| && body[pos] != NUL {
      NoNulBefore(body, pos + 1, end);
    }
  }

  /** A frame shorter than it declares, or than its headers, makes the constructor read outside it. */
  lemma ShortFrame(version: byte, kind: byte, headerLen: u16, totalLen: u32, body: seq<byte>)
    requires 8 + |body| < 0x1_0000_0000 && !RawShort(totalLen)
    requires totalLen > 8 + |body| || headerLen > totalLen || headerLen > 8 + |body|
    ensures ParseFrame(FirstBytes(version, kind, headerLen, totalLen) + body) == Malformed
  {
    var f := FirstBytes(version, kind, headerLen, totalLen) + body;
    LengthBytes(version, kind, headerLen, totalLen, body);
    ParseSteps(f, headerLen, totalLen);
    var dataLen := (totalLen - headerLen) % TWO_32;
    assert headerLen <= totalLen ==> dataLen == totalLen - headerLen;
    assert headerLen > totalLen ==> dataLen == totalLen - headerLen + TWO_32;
  }

  /** Strings are stored in the order of the frame, so that a later one replaces an earlier one of the same key. */
  lemma {:induction false} StoreAllAppend(acc: map<Text, Text>, ss: seq<Text>, s: Text)
    ensures StoreAll(acc, ss + [s]) == Store(StoreAll(acc, ss), s)
    decreases |ss|
  {
    if ss != [] {
      assert (ss + [s])[1..] == ss[1..] + [s];
      StoreAllAppend(Store(acc, ss[0]), ss[1..], s);
    }
  }

  lemma LastStringWins(ss: seq<Text>, k: Text, v: Text)
    requires COLON !in k && v != []
    ensures var m := StoreAll(map[], ss + [k + [COLON] + v]);
            k in m && m[k] == UpTo(v, COLON)
  {
    StoreAllAppend(map[], ss, k + [COLON] + v);
    StoreMeans(StoreAll(map[], ss), k, v);
  }
}
