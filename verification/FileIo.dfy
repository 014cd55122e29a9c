// readSize and writeFile: moving bytes between files and memory in passes of at most 2 MiB.
module FileIo {
  import opened Octets

  const ONCE_MAX := 0x20_0000

  /**
   * What read and write return, call by call: any number up to what was expected, or nothing at all. Calls
   * beyond the list move everything.
   */
  type Answers = seq<nat>

  function Took(answers: Answers, expected: nat): (n: nat)
    ensures n <= expected
  {
    if answers == [] then expected else Min(answers[0], expected)
  }

  /** One file operation: the file does not open, or it opens and the calls return these numbers. */
  datatype Io = NotOpened | Opened(answers: Answers)

  function Later(answers: Answers): Answers { if answers == [] then [] else answers[1..] }

  /** The next call moves all n bytes. */
  predicate InFull(answers: Answers, n: nat) { Took(answers, n) == n }

  /** The first call that moves anything moves all n bytes. */
  predicate MovesAtOnce(answers: Answers, n: nat) {
    if answers != [] && answers[0] == 0 then MovesAtOnce(answers[1..], n) else InFull(answers, n)
  }

  /** Every call moves all it was asked to move. */
  ghost predicate Full(answers: Answers) { forall a | a in answers :: a >= ONCE_MAX }

  // Writing.

  /** A write of d at position pos. A write behind the end leaves a hole of zeros. */
  function Overlay(f: seq<byte>, pos: nat, d: seq<byte>): seq<byte> {
    if d == [] then f else Patched(f, pos, d)
  }

  function Patched(f: seq<byte>, pos: nat, d: seq<byte>): (g: seq<byte>)
    ensures |g| == Max(|f|, pos + |d|)
  {
    if |f| <= pos then f + Zeros(pos - |f|) + d
    else f[..pos] + d + (if pos + |d| < |f| then f[pos + |d|..] else [])
  }

  /** The bytes of an overlay: the new ones in their range, outside it the old ones and zeros for a hole. */
  lemma OverlayBytes(f: seq<byte>, pos: nat, d: seq<byte>)
    ensures |Overlay(f, pos, d)| == if d == [] then |f| else Max(|f|, pos + |d|)
    ensures forall i | pos <= i < pos + |d| :: Overlay(f, pos, d)[i] == d[i - pos]
    ensures forall i | 0 <= i < |Overlay(f, pos, d)| && !(pos <= i < pos + |d|) ::
              Overlay(f, pos, d)[i] == if i < |f| then f[i] else 0
  {
  }

  /** What the passes put into the file with rest bytes to go: each one starts over at the front of the buffer. */
  function Smear(data: seq<byte>, rest: nat, answers: Answers): (s: seq<byte>)
    requires rest <= |data|
    ensures |s| == rest
    decreases rest, |answers|
  {
    if rest == 0 then []
    else
      var n := Took(answers, Min(ONCE_MAX, rest));
      data[..n] + Smear(data, rest - n, Later(answers))
  }

  /** The file the passes leave behind with rest bytes to go. */
  function Left(f: seq<byte>, pos: nat, data: seq<byte>, rest: nat, answers: Answers): seq<byte>
    requires rest <= |data|
  {
    Overlay(f, pos, Smear(data, rest, answers))
  }

  /** The file that the passes of writeFile leave behind. */
  function Written(f: seq<byte>, offset: nat, data: seq<byte>, answers: Answers): seq<byte> {
    Left(f, offset, data, |data|, answers)
  }

  /** The file writeFile leaves behind. */
  function Stored(f: seq<byte>, offset: nat, data: seq<byte>, io: Io): seq<byte> {
    if io.NotOpened? then f else Written(f, offset, data, io.answers)
  }

  lemma PassStep(f: seq<byte>, pos: nat, data: seq<byte>, rest: nat, answers: Answers, n: nat)
    requires rest <= |data| && n == Took(answers, Min(ONCE_MAX, rest))
    ensures Left(Overlay(f, pos, data[..n]), pos + n, data, rest - n, Later(answers))
         == Left(f, pos, data, rest, answers)
  {
    var more := Smear(data, rest - n, Later(answers));
    assert |data[..n]| == n && Smear(data, rest, answers) == data[..n] + more;
    OverlayTwice(f, pos, data[..n], more);
  }

  class DiskFile {
    var content: seq<byte>

    constructor (content: seq<byte>)
      ensures this.content == content
    {
      this.content := content;
    }

    /** One write call of at most 2 MiB, always from the start of the buffer. */
    method WritePass(pos: nat, data: seq<byte>, rest: nat, answers: Answers) returns (actual: nat)
      requires rest <= |data|
      modifies this
      ensures actual <= rest && (rest > 0 && answers == [] ==> actual > 0)
      ensures Left(content, pos + actual, data, rest - actual, Later(answers))
           == Left(old(content), pos, data, rest, answers)
    {
      actual := Took(answers, Min(ONCE_MAX, rest));
      PassStep(content, pos, data, rest, answers, actual);
      content := Overlay(content, pos, data[..actual]);
    }

    /** writeFile. It says how much it has written, and has nothing to say about failure but 0. */
    method WriteFile(offset: nat, data: seq<byte>, io: Io) returns (retLen: nat)
      modifies this
      ensures content == Stored(old(content), offset, data, io)
      ensures retLen == if io.NotOpened? then 0 else |data|
    {
      if io.NotOpened? {
        return 0;
      }
      var answers := io.answers;
      var end := offset + |data|;
      var actual := WritePass(offset, data, |data|, answers);
      var more := WriteRest(offset + actual, end, data, Later(answers));
      retLen := actual + more;
    }

    /** The passes after the first one. */
    method WriteRest(pos: nat, end: nat, data: seq<byte>, answers: Answers) returns (retLen: nat)
      requires pos <= end <= pos + |data|
      modifies this
      ensures content == Left(old(content), pos, data, end - pos, answers)
      ensures retLen == end - pos
    {
      var curpos, remained, calls := pos, end - pos, answers;
      ghost var goal := Left(content, curpos, data, remained, calls);
      retLen := 0;
      while curpos < end
        invariant curpos == pos + retLen <= end && remained == end - curpos
        invariant Left(content, curpos, data, remained, calls) == goal
        decreases remained, |calls|
      {
        var actual := WritePass(curpos, data, remained, calls);
        curpos, retLen, remained, calls := curpos + actual, retLen + actual, remained - actual, Later(calls);
      }
      NothingLeft(content, curpos, data, calls);
    }
  }

  lemma NothingLeft(f: seq<byte>, pos: nat, data: seq<byte>, answers: Answers)
    ensures Left(f, pos, data, 0, answers) == f
  {
  }

  lemma OverlayTwice(f: seq<byte>, pos: nat, a: seq<byte>, b: seq<byte>)
    ensures Overlay(Overlay(f, pos, a), pos + |a|, b) == Overlay(f, pos, a + b)
  {
    if a == [] {
      assert a + b == b;
    } else if b == [] {
      assert a + b == a;
    } else {
      PatchedTwice(f, pos, a, b);
    }
  }

  lemma PatchedTwice(f: seq<byte>, pos: nat, a: seq<byte>, b: seq<byte>)
    requires a != [] && b != []
    ensures Patched(Patched(f, pos, a), pos + |a|, b) == Patched(f, pos, a + b)
  {
    var g := Patched(f, pos, a);
    if |f| <= pos {
      assert g == f + Zeros(pos - |f|) + a;
      assert Patched(g, pos + |a|, b) == g + Zeros(0) + b == g + b;
    } else if |f| <= pos + |a| {
      assert g == f[..pos] + a + [] == f[..pos] + a;
      assert Patched(g, pos + |a|, b) == g + Zeros(0) + b == g + b;
    } else {
      assert g[..pos + |a|] == f[..pos] + a;
      assert |f| > pos + |a| + |b| ==> g[pos + |a| + |b|..] == f[pos + |a| + |b|..];
    }
  }

  lemma OverlayInjective(f: seq<byte>, pos: nat, a: seq<byte>, b: seq<byte>)
    requires |a| == |b|
    ensures Overlay(f, pos, a) == Overlay(f, pos, b) <==> a == b
  {
    var g, h := Overlay(f, pos, a), Overlay(f, pos, b);
    OverlayBytes(f, pos, a);
    OverlayBytes(f, pos, b);
    if g == h {
      forall i | 0 <= i < |a| ensures a[i] == b[i] {
        assert g[pos + i] == a[i] && h[pos + i] == b[i];
      }
    }
  }

  /** Where the pass begins that writes byte j, with rest bytes to go. */
  function PassStart(rest: nat, answers: Answers, j: nat): (p: nat)
    requires j < rest
    ensures p <= j
    decreases rest, |answers|
  {
    var n := Took(answers, Min(ONCE_MAX, rest));
    if j < n then 0 else n + PassStart(rest - n, Later(answers), j - n)
  }

  /** The byte of the data that ends up in place j. */
  function Carried(data: seq<byte>, answers: Answers, j: nat): byte
    requires j < |data|
  {
    data[j - PassStart(|data|, answers, j)]
  }

  lemma {:induction false} SmearByte(data: seq<byte>, rest: nat, answers: Answers, j: nat)
    requires j < rest <= |data|
    ensures Smear(data, rest, answers)[j] == data[j - PassStart(rest, answers, j)]
    decreases rest, |answers|
  {
    var n := Took(answers, Min(ONCE_MAX, rest));
    if j >= n {
      SmearByte(data, rest - n, Later(answers), j - n);
    }
  }

  /** Every byte of the data is the one at the same distance from the front as it is from the start of its pass. */
  ghost predicate SurvivesPasses(data: seq<byte>, answers: Answers) {
    forall j | 0 <= j < |data| :: data[j] == Carried(data, answers, j)
  }

  /** writeFile is right exactly when starting over at the front of the buffer in every pass does no harm. */
  lemma WrittenRightIff(f: seq<byte>, offset: nat, data: seq<byte>, answers: Answers)
    ensures Written(f, offset, data, answers) == Overlay(f, offset, data) <==> SurvivesPasses(data, answers)
  {
    OverlayInjective(f, offset, Smear(data, |data|, answers), data);
    SmearIsDataIff(data, answers);
  }

  lemma SmearIsDataIff(data: seq<byte>, answers: Answers)
    ensures Smear(data, |data|, answers) == data <==> SurvivesPasses(data, answers)
  {
    var s := Smear(data, |data|, answers);
    forall j | 0 <= j < |data| ensures s[j] == Carried(data, answers, j) {
      SmearByte(data, |data|, answers, j);
    }
  }

  /** Byte by byte: outside its range the old bytes and zeros for a hole, inside it what the passes carried. */
  lemma StoredBytes(f: seq<byte>, offset: nat, data: seq<byte>, answers: Answers, o: nat)
    ensures var g := Written(f, offset, data, answers);
            if offset <= o < offset + |data| then o < |g| && g[o] == Carried(data, answers, o - offset)
            else if o < |f| then o < |g| && g[o] == f[o]
            else o < |g| ==> g[o] == 0
  {
    OverlayBytes(f, offset, Smear(data, |data|, answers));
    if offset <= o < offset + |data| {
      SmearByte(data, |data|, answers, o - offset);
    }
  }

  /** One full pass carries every byte to its own place. */
  lemma OnePassCarries(data: seq<byte>, answers: Answers, j: nat)
    requires j < |data| <= ONCE_MAX && InFull(answers, |data|)
    ensures Carried(data, answers, j) == data[j]
  {
  }

  /** One full pass does no harm. */
  lemma OnePassWrites(f: seq<byte>, offset: nat, data: seq<byte>, answers: Answers)
    requires |data| <= ONCE_MAX && InFull(answers, |data|)
    ensures Written(f, offset, data, answers) == Overlay(f, offset, data)
  {
    WrittenRightIff(f, offset, data, answers);
    forall j | 0 <= j < |data| ensures Carried(data, answers, j) == data[j] {
      OnePassCarries(data, answers, j);
    }
  }

  /** With full writes the passes begin at the multiples of 2 MiB. */
  lemma {:induction false} FullPassStart(rest: nat, answers: Answers, j: nat)
    requires j < rest && Full(answers)
    ensures j - PassStart(rest, answers, j) == j % ONCE_MAX
    decreases rest
  {
    FullTook(answers, Min(ONCE_MAX, rest));
    if j >= ONCE_MAX {
      FullPassStart(rest - ONCE_MAX, Later(answers), j - ONCE_MAX);
      assert (j - ONCE_MAX) % ONCE_MAX == j % ONCE_MAX;
    } else {
      assert j % ONCE_MAX == j;
    }
  }

  lemma FullTook(answers: Answers, expected: nat)
    requires Full(answers) && expected <= ONCE_MAX
    ensures Took(answers, expected) == expected && Full(Later(answers))
  {
    assert answers != [] ==> answers[0] in answers;
    assert forall a | a in Later(answers) :: a in answers;
  }

  /**
   * writeFile with full writes is right if and only if the data repeats itself every 2 MiB; in particular
   * for everything up to 2 MiB.
   */
  lemma FullWritesRightIff(f: seq<byte>, offset: nat, data: seq<byte>, answers: Answers)
    requires Full(answers)
    ensures Written(f, offset, data, answers) == Overlay(f, offset, data)
       <==> forall j | 0x20_0000 <= j < |data| :: data[j] == data[j % 0x20_0000]
  {
    WrittenRightIff(f, offset, data, answers);
    forall j | 0 <= j < |data| ensures Carried(data, answers, j) == data[j % ONCE_MAX] {
      FullPassStart(|data|, answers, j);
    }
    RepeatsIff(data);
  }

  lemma RepeatsIff(data: seq<byte>)
    ensures (forall j | 0 <= j < |data| :: data[j] == data[j % ONCE_MAX])
       <==> forall j | ONCE_MAX <= j < |data| :: data[j] == data[j % ONCE_MAX]
  {
    forall j | 0 <= j < ONCE_MAX ensures j % ONCE_MAX == j {
    }
  }

  /** A short write is enough to go wrong: two bytes written one at a time. */
  lemma ShortWriteGoesWrong()
    ensures Written([], 0, [1, 2], [1, 1]) == [1, 1]
  {
    var data: seq<byte> := [1, 2];
    assert data[..1] == [1];
    assert Smear(data, 1, [1]) == [1] + Smear(data, 0, []) == [1];
    assert Later([1, 1]) == [1];
    assert Smear(data, 2, [1, 1]) == [1] + [1] == [1, 1];
    assert Overlay([], 0, [1, 1]) == [1, 1];
  }

  // Saving the blocks of a file.

  /** The file holds the bytes of src in [from, to). */
  predicate HoldsRange(f: seq<byte>, src: seq<byte>, from: nat, to: nat) {
    from <= to <= |src| && to <= |f| && f[from..to] == src[from..to]
  }

  /** Saving a piece of src makes that piece right and spoils no piece that is right. */
  lemma SaveKeepsRanges(f: seq<byte>, src: seq<byte>, start: nat, end: nat, from: nat, to: nat)
    requires start <= end <= |src|
    ensures HoldsRange(f, src, from, to) ==> HoldsRange(Overlay(f, start, src[start..end]), src, from, to)
    ensures start < end ==> HoldsRange(Overlay(f, start, src[start..end]), src, start, end)
  {
    var g := Overlay(f, start, src[start..end]);
    OverlayBytes(f, start, src[start..end]);
    if HoldsRange(f, src, from, to) {
      forall i | from <= i < to ensures g[i] == src[i] {
        assert f[i] == f[from..to][i - from] == src[from..to][i - from];
      }
    }
  }

  /** Pieces of src, handed to writeFile one after the other. */
  function SaveAll(f: seq<byte>, src: seq<byte>, pieces: seq<(nat, nat)>, answers: Answers): seq<byte>
    requires PiecesOf(pieces, src)
    decreases |pieces|
  {
    if pieces == [] then f
    else
      var (s, e) := pieces[0];
      assert pieces[0] in pieces;
      SaveAll(Written(f, s, src[s..e], answers), src, pieces[1..], answers)
  }

  /** Each piece lies within src and takes one pass. */
  predicate PiecesOf(pieces: seq<(nat, nat)>, src: seq<byte>) {
    forall p | p in pieces :: p.0 <= p.1 <= |src| && p.1 - p.0 <= ONCE_MAX
  }

  ghost predicate InSome(pieces: seq<(nat, nat)>, i: nat) {
    exists p :: p in pieces && p.0 <= i < p.1
  }

  lemma FullPieceSaved(f: seq<byte>, src: seq<byte>, s: nat, e: nat, answers: Answers)
    requires s <= e <= |src| && e - s <= ONCE_MAX && Full(answers)
    ensures Written(f, s, src[s..e], answers) == Overlay(f, s, src[s..e])
  {
    FullTook(answers, e - s);
    OnePassWrites(f, s, src[s..e], answers);
  }

  lemma {:induction false} SaveAllKeeps(f: seq<byte>, src: seq<byte>, pieces: seq<(nat, nat)>, answers: Answers, i: nat)
    requires PiecesOf(pieces, src) && Full(answers)
    requires i < |src| && (HoldsRange(f, src, i, i + 1) || InSome(pieces, i))
    ensures HoldsRange(SaveAll(f, src, pieces, answers), src, i, i + 1)
    decreases |pieces|
  {
    if pieces != [] {
      var (s, e) := pieces[0];
      assert pieces[0] in pieces;
      FullPieceSaved(f, src, s, e, answers);
      if s <= i < e || HoldsRange(f, src, i, i + 1) {
        PieceSaved(f, src, s, e, i);
      } else {
        var p :| p in pieces && p.0 <= i < p.1;
        assert p in pieces[1..];
      }
      SaveAllKeeps(Overlay(f, s, src[s..e]), src, pieces[1..], answers, i);
    }
  }

  lemma PieceSaved(f: seq<byte>, src: seq<byte>, s: nat, e: nat, i: nat)
    requires s <= e <= |src| && i < |src| && (s <= i < e || HoldsRange(f, src, i, i + 1))
    ensures HoldsRange(Overlay(f, s, src[s..e]), src, i, i + 1)
  {
    if s <= i < e {
      var g := Overlay(f, s, src[s..e]);
      OverlayBytes(f, s, src[s..e]);
      assert g[i] == src[s..e][i - s] == src[i];
      assert g[i..i + 1] == src[i..i + 1];
    } else {
      SaveKeepsRanges(f, src, s, e, i, i + 1);
    }
  }

  lemma {:induction false} SaveAllLength(f: seq<byte>, src: seq<byte>, pieces: seq<(nat, nat)>, answers: Answers)
    requires PiecesOf(pieces, src) && Full(answers)
    requires |f| <= |src|
    ensures |SaveAll(f, src, pieces, answers)| <= |src|
    decreases |pieces|
  {
    if pieces != [] {
      var (s, e) := pieces[0];
      assert pieces[0] in pieces;
      FullPieceSaved(f, src, s, e, answers);
      OverlayBytes(f, s, src[s..e]);
      SaveAllLength(Overlay(f, s, src[s..e]), src, pieces[1..], answers);
    }
  }

  lemma SavedByte(f: seq<byte>, src: seq<byte>, pieces: seq<(nat, nat)>, answers: Answers, i: nat)
    requires PiecesOf(pieces, src) && Full(answers)
    requires i < |src| && InSome(pieces, i)
    ensures i < |SaveAll(f, src, pieces, answers)| && SaveAll(f, src, pieces, answers)[i] == src[i]
  {
    var g := SaveAll(f, src, pieces, answers);
    SaveAllKeeps(f, src, pieces, answers, i);
    assert g[i..i + 1][0] == src[i..i + 1][0];
  }

  /**
   * Pieces that together cover src, in any order, overlapping or repeated, turn any file that is not longer
   * than src into src.
   */
  lemma SavingInAnyOrder(f: seq<byte>, src: seq<byte>, pieces: seq<(nat, nat)>, answers: Answers)
    requires PiecesOf(pieces, src) && Full(answers)
    requires forall i | 0 <= i < |src| :: InSome(pieces, i)
    requires |f| <= |src|
    ensures SaveAll(f, src, pieces, answers) == src
  {
    var g := SaveAll(f, src, pieces, answers);
    SaveAllLength(f, src, pieces, answers);
    if |src| > 0 {
      SavedByte(f, src, pieces, answers, |src| - 1);
    }
    forall i | 0 <= i < |src| ensures g[i] == src[i] {
      SavedByte(f, src, pieces, answers, i);
    }
  }

  // Reading.

  /** What one pass hands to the monitors. */
  datatype Chunk = Chunk(from: nat, data: seq<byte>) {
    function End(): nat { from + |data| }
  }

  function Chunks(f: seq<byte>, cur: nat, end: nat, answers: Answers): seq<Chunk>
    requires end <= |f|
    decreases end - cur, |answers|
  {
    if cur >= end then []
    else
      var n := Took(answers, Min(ONCE_MAX, end - cur));
      [Chunk(cur, f[cur..cur + n])] + Chunks(f, cur + n, end, Later(answers))
  }

  /** Where reading ends: the requested end, computed in 64 bits, or the end of the file. */
  function ReadEnd(f: seq<byte>, offset: u64, size: u64): nat { Min(Add64(offset, size), |f|) }

  /** A seek to an offset that is negative as an off_t. -1 is what a failed seek returns, so that passes the test. */
  predicate SeekFails(offset: u64) { TWO_63 <= offset < TWO_64 - 1 }

  /** The monitor calls of readSize; none for a file that does not open or cannot be positioned. */
  function ReadChunks(f: seq<byte>, offset: u64, size: u64, io: Io): seq<Chunk> {
    if io.NotOpened? || SeekFails(offset) then [] else Chunks(f, offset, ReadEnd(f, offset, size), io.answers)
  }

  function Slice(f: seq<byte>, from: nat, to: nat): seq<byte> {
    if from <= to <= |f| then f[from..to] else []
  }

  /** What readSize returns in its buffer of size bytes. */
  function ReadBuffer(f: seq<byte>, offset: nat, end: nat, size: nat): seq<byte>
    requires |Slice(f, offset, end)| <= size
  {
    Slice(f, offset, end) + Zeros(size - |Slice(f, offset, end)|)
  }

  lemma EndWithin(f: seq<byte>, offset: u64, size: u64)
    ensures |Slice(f, offset, ReadEnd(f, offset, size))| <= size
    ensures offset < ReadEnd(f, offset, size) ==> ReadEnd(f, offset, size) - offset <= size
  {
  }

  /** readSize: the bytes in a buffer of size bytes, or none, and a monitor call per pass. */
  method ReadSize(f: seq<byte>, offset: u64, size: u64, io: Io)
    returns (buf: Option<seq<byte>>, retLen: nat, chunks: seq<Chunk>)
    ensures chunks == ReadChunks(f, offset, size, io)
    ensures buf == None <==> io.NotOpened? || 0x8000_0000_0000_0000 <= offset < 0xFFFF_FFFF_FFFF_FFFF
    ensures buf == None ==> retLen == 0
    ensures io.Opened? && !SeekFails(offset) ==>
      && retLen == |Slice(f, offset, ReadEnd(f, offset, size))| <= size
      && buf == Some(ReadBuffer(f, offset, ReadEnd(f, offset, size), size))
    ensures buf.Some? ==> |buf.value| == size && HasRead(buf.value, f, offset, offset + retLen)
    ensures buf.Some? && offset + size < TWO_64 ==>
      retLen == if offset + size <= |f| then size else if offset <= |f| then |f| - offset else 0
    ensures offset + size >= TWO_64 ==> retLen == 0 && chunks == []
  {
    if io.NotOpened? || SeekFails(offset) {
      return None, 0, [];
    }
    var end := ReadEnd(f, offset, size);
    EndWithin(f, offset, size);
    var data := new byte[size](_ => 0);
    if end <= offset {
      assert data[..] == ReadBuffer(f, offset, end, size);
      return Some(data[..]), 0, [];
    }
    retLen, chunks := ReadLoop(f, offset, end, data, io.answers);
    ReadIsBuffer(data[..], f, offset, end);
    buf := Some(data[..]);
  }

  /** The loop, for the part of the file that exists. */
  method ReadLoop(f: seq<byte>, offset: nat, end: nat, data: array<byte>, answers: Answers)
    returns (retLen: nat, chunks: seq<Chunk>)
    requires offset < end <= |f| && end - offset <= data.Length
    requires data[..] == Zeros(data.Length)
    modifies data
    ensures retLen == end - offset
    ensures chunks == Chunks(f, offset, end, answers)
    ensures HasRead(data[..], f, offset, end)
  {
    var curpos: nat, dataPos, calls := offset, 0, answers;
    ghost var goal := Collected([], f, offset, end, answers);
    retLen, chunks := 0, [];
    while curpos < end
      invariant dataPos == retLen == curpos - offset && offset <= curpos <= end
      invariant Collected(chunks, f, curpos, end, calls) == goal
      invariant HasRead(data[..], f, offset, curpos)
      decreases end - curpos, |calls|
    {
      var actual;
      actual, chunks := ReadPass(f, offset, curpos, end, data, calls, chunks);
      curpos, retLen, dataPos, calls := curpos + actual, retLen + actual, dataPos + actual, Later(calls);
    }
    CollectedChunks([], f, offset, end, answers);
  }

  /** The buffer holds the bytes of the file from offset up to cur, and zeros behind them. */
  ghost predicate HasRead(buf: seq<byte>, f: seq<byte>, offset: nat, cur: nat) {
    forall j | 0 <= j < |buf| :: buf[j] == if offset + j < cur && offset + j < |f| then f[offset + j] else 0
  }

  lemma ReadIsBuffer(buf: seq<byte>, f: seq<byte>, offset: nat, end: nat)
    requires HasRead(buf, f, offset, end) && offset <= end <= |f| && end - offset <= |buf|
    ensures buf == ReadBuffer(f, offset, end, |buf|)
  {
  }

  /** The chunks handed over before, and all that are to come. */
  function Collected(chunks: seq<Chunk>, f: seq<byte>, cur: nat, end: nat, answers: Answers): seq<Chunk>
    requires end <= |f|
    decreases end - cur, |answers|
  {
    if cur >= end then chunks
    else
      var n := Took(answers, Min(ONCE_MAX, end - cur));
      Collected(chunks + [Chunk(cur, f[cur..cur + n])], f, cur + n, end, Later(answers))
  }

  lemma {:induction false} CollectedChunks(chunks: seq<Chunk>, f: seq<byte>, cur: nat, end: nat, answers: Answers)
    requires end <= |f|
    ensures Collected(chunks, f, cur, end, answers) == chunks + Chunks(f, cur, end, answers)
    decreases end - cur, |answers|
  {
    if cur < end {
      var n := Took(answers, Min(ONCE_MAX, end - cur));
      var more := chunks + [Chunk(cur, f[cur..cur + n])];
      CollectedChunks(more, f, cur + n, end, Later(answers));
      ChunkStep(f, cur, end, answers, chunks, n);
    }
  }

  /** One read call, into the buffer behind what has been read, and the call of the monitors. */
  method ReadPass(f: seq<byte>, offset: nat, curpos: nat, end: nat, data: array<byte>, answers: Answers,
                  chunks0: seq<Chunk>) returns (actual: nat, chunks: seq<Chunk>)
    requires offset <= curpos < end <= |f| && end - offset <= data.Length
    requires HasRead(data[..], f, offset, curpos)
    modifies data
    ensures actual <= end - curpos && (answers == [] ==> actual > 0)
    ensures Collected(chunks, f, curpos + actual, end, Later(answers)) == Collected(chunks0, f, curpos, end, answers)
    ensures HasRead(data[..], f, offset, curpos + actual)
  {
    actual := Took(answers, Min(ONCE_MAX, end - curpos));
    chunks := chunks0 + [Chunk(curpos, f[curpos..curpos + actual])];
    ReadInto(f, offset, curpos, f[curpos..curpos + actual], data);
  }

  method ReadInto(ghost f: seq<byte>, offset: nat, curpos: nat, piece: seq<byte>, data: array<byte>)
    requires offset <= curpos <= curpos + |piece| <= |f| && curpos + |piece| - offset <= data.Length
    requires piece == f[curpos..curpos + |piece|]
    requires HasRead(data[..], f, offset, curpos)
    modifies data
    ensures HasRead(data[..], f, offset, curpos + |piece|)
  {
    var n := curpos - offset;
    ghost var was := data[..];
    assert data[..n] == was[..n] && data[n + |piece|..] == was[n + |piece|..];
    Put(data, n, piece);
    ReadStep(was, f, offset, curpos, piece);
  }

  lemma ChunkStep(f: seq<byte>, cur: nat, end: nat, answers: Answers, chunks: seq<Chunk>, n: nat)
    requires cur < end <= |f| && n == Took(answers, Min(ONCE_MAX, end - cur))
    ensures chunks + Chunks(f, cur, end, answers)
         == (chunks + [Chunk(cur, f[cur..cur + n])]) + Chunks(f, cur + n, end, Later(answers))
  {
  }

  lemma ReadStep(was: seq<byte>, f: seq<byte>, offset: nat, cur: nat, piece: seq<byte>)
    requires offset <= cur <= cur + |piece| <= |f| && cur + |piece| - offset <= |was|
    requires piece == f[cur..cur + |piece|] && HasRead(was, f, offset, cur)
    ensures var n := cur - offset; HasRead(was[..n] + piece + was[n + |piece|..], f, offset, cur + |piece|)
  {
    var n := cur - offset;
    var now := was[..n] + piece + was[n + |piece|..];
    forall j | 0 <= j < |now|
      ensures now[j] == if offset + j < cur + |piece| && offset + j < |f| then f[offset + j] else 0
    {
    }
  }

  /** The chunks start at from, each has at most 2 MiB of the file, and each starts where the last one ended. */
  ghost predicate Consecutive(cs: seq<Chunk>, f: seq<byte>, from: nat) {
    cs != [] ==>
      && cs[0].from == from && |cs[0].data| <= ONCE_MAX
      && cs[0].End() <= |f| && cs[0].data == f[from..cs[0].End()]
      && Consecutive(cs[1..], f, cs[0].End())
  }

  function Data(cs: seq<Chunk>): seq<byte> {
    if cs == [] then [] else cs[0].data + Data(cs[1..])
  }

  lemma FirstChunk(f: seq<byte>, cur: nat, end: nat, answers: Answers, n: nat)
    requires cur < end <= |f| && n == Took(answers, Min(ONCE_MAX, end - cur))
    ensures cur + n <= end && n <= ONCE_MAX && (answers == [] ==> n > 0)
    ensures Chunks(f, cur, end, answers) == [Chunk(cur, f[cur..cur + n])] + Chunks(f, cur + n, end, Later(answers))
    ensures Chunks(f, cur, end, answers)[1..] == Chunks(f, cur + n, end, Later(answers))
    ensures |f[cur..cur + n]| == n
  {
  }

  /** A range that ends behind 2^64 wraps round, to an end before its start: nothing is read. */
  lemma WrappedRangeReadsNothing(f: seq<byte>, offset: u64, size: u64, io: Io)
    requires offset + size >= 0x1_0000_0000_0000_0000
    ensures ReadChunks(f, offset, size, io) == []
  {
  }

  /** For any short reads the chunks follow each other, each holding its part of the file. */
  lemma {:induction false} ChunksFollow(f: seq<byte>, cur: nat, end: nat, answers: Answers)
    requires end <= |f|
    ensures Consecutive(Chunks(f, cur, end, answers), f, cur)
    decreases end - cur, |answers|
  {
    if cur < end {
      var n := Took(answers, Min(ONCE_MAX, end - cur));
      FirstChunk(f, cur, end, answers, n);
      ChunksFollow(f, cur + n, end, Later(answers));
    }
  }

  /** Together they hold all that was asked for and exists. */
  lemma {:induction false} ChunksTile(f: seq<byte>, cur: nat, end: nat, answers: Answers)
    requires end <= |f|
    ensures Data(Chunks(f, cur, end, answers)) == Slice(f, cur, end)
    decreases end - cur, |answers|
  {
    if cur < end {
      var n := Took(answers, Min(ONCE_MAX, end - cur));
      FirstChunk(f, cur, end, answers, n);
      ChunksTile(f, cur + n, end, Later(answers));
      DataFirst(Chunk(cur, f[cur..cur + n]), Chunks(f, cur + n, end, Later(answers)));
      SliceJoin(f, cur, cur + n, end);
    }
  }

  lemma DataFirst(c: Chunk, cs: seq<Chunk>)
    ensures Data([c] + cs) == c.data + Data(cs)
  {
    assert ([c] + cs)[1..] == cs;
  }

  lemma SliceJoin(f: seq<byte>, a: nat, b: nat, c: nat)
    requires a <= b <= c <= |f|
    ensures f[a..b] + Slice(f, b, c) == Slice(f, a, c)
  {
  }

  /** Exactly the last chunk reaches the end of what is read. */
  lemma {:induction false} ChunkEnds(f: seq<byte>, cur: nat, end: nat, answers: Answers, i: nat)
    requires end <= |f| && i < |Chunks(f, cur, end, answers)|
    ensures cur <= Chunks(f, cur, end, answers)[i].from && |Chunks(f, cur, end, answers)[i].data| <= 0x20_0000
    ensures Chunks(f, cur, end, answers)[i].End() <= end
    ensures Chunks(f, cur, end, answers)[i].End() == end <==> i == |Chunks(f, cur, end, answers)| - 1
    decreases end - cur, |answers|
  {
    var n := Took(answers, Min(ONCE_MAX, end - cur));
    FirstChunk(f, cur, end, answers, n);
    var rest := Chunks(f, cur + n, end, Later(answers));
    assert rest == [] <==> cur + n == end;
    if i > 0 {
      ChunkEnds(f, cur + n, end, Later(answers), i - 1);
      assert Chunks(f, cur, end, answers)[i] == rest[i - 1];
    }
  }
}
