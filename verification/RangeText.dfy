// The "range" and "content-range" header values.
module RangeText {
  import opened Octets
  import opened Splitting
  import opened Decimal

  const LAST: Text := T("last")
  const MORE: Text := T("more")

  /** Range: size bytes from start; size 0 asks for everything from start on. */
  datatype Range = Range(start: u64, size: u64) {
    function ToText(): Text {
      Print(start) + [DASH] + (if size != 0 then Print(Add64(start, size)) else [])
    }
  }

  /** An end that is scanned into a variable that was zero before. */
  function ScanEnd(t: Text): u64 { if ScanU64(t).Some? then ScanU64(t).value else 0 }

  /** The constructor from text. None when it indexes past the tokens or leaves the start unset. */
  function ParseRange(t: Text): Option<Range> {
    var raw := Split(t, DASH);
    if raw == [] then None
    else
      var start := ScanU64(raw[0]);
      if start.None? then None
      else if |raw| == 1 then Some(Range(start.value, 0))
      else
        Some(Range(start.value, Sub64(ScanEnd(raw[1]), start.value)))
  }

  datatype ContentRange = ContentRange(start: u64, size: u64, total: u64, last: bool) {
    function ToText(): Text {
      Print(start) + [DASH] + Print(Add64(start, size)) + [SLASH] + Print(total) + [SLASH]
      + (if last then LAST else MORE)
    }
  }

  function ParseContentRange(t: Text): Option<ContentRange> {
    var raw := Split(t, SLASH);
    if |raw| < 3 then None
    else
      var ends := Split(raw[0], DASH);
      if |ends| < 2 then None
      else
        var start, total := ScanU64(ends[0]), ScanU64(raw[1]);
        if start.None? || total.None? then None
        else Some(ContentRange(start.value, Sub64(ScanEnd(ends[1]), start.value), total.value, raw[2] == LAST))
  }

  lemma LabelsDiffer()
    ensures LAST != MORE && SLASH !in LAST && SLASH !in MORE
    ensures forall x | x in LAST || x in MORE :: x != COLON && x != NUL
    ensures LAST != [] && MORE != []
  {
    assert LAST[0] == 'l' as int && LAST[1] == 'a' as int && LAST[2] == 's' as int && LAST[3] == 't' as int;
    assert MORE[0] == 'm' as int && MORE[1] == 'o' as int && MORE[2] == 'r' as int && MORE[3] == 'e' as int;
  }

  lemma SplitEnd(a: nat, t: Text)
    requires t != [] && DASH !in t
    ensures Split(Print(a) + [DASH] + t, DASH) == [Print(a), t]
  {
    PrintIsPlain(a, DASH);
    SplitFirst(Print(a), DASH, t);
    SplitOne(t, DASH);
  }

  /** The two ends of a range are recovered from "a-b". */
  lemma SplitEnds(a: nat, b: nat)
    ensures Split(Print(a) + [DASH] + Print(b), DASH) == [Print(a), Print(b)]
  {
    PrintIsPlain(b, DASH);
    SplitEnd(a, Print(b));
  }

  /** Every range survives its text, including the open form and ends that wrap past 2^64. */
  lemma RangeRoundTrip(r: Range)
    ensures ParseRange(r.ToText()) == Some(r)
  {
    var end := Add64(r.start, r.size);
    ScanUndoesPrint(r.start);
    if r.size == 0 {
      PrintIsPlain(r.start, DASH);
      SplitFirst(Print(r.start), DASH, []);
      assert Split([], DASH) == [];
    } else {
      SplitEnds(r.start, end);
      ScanUndoesPrint(end);
      SubUndoesAdd(r.start, r.size);
    }
  }

  /**
   * Any two 64-bit numbers with a dash between them, in order or not: the size is their difference modulo 2^64. What
   * follows a second dash is ignored.
   */
  lemma RangeOfEnds(a: u64, b: u64, extra: Text)
    requires extra == [] || extra[0] == 45
    ensures ParseRange(Print(a) + [45] + (Print(b) + extra)) == Some(Range(a, (b - a) % 0x1_0000_0000_0000_0000))
  {
    EndTokens(a, b, extra);
    ScanUndoesPrint(b);
    RangeOfTokens(Print(a) + [DASH] + (Print(b) + extra), a, b);
  }

  /** A number alone, or with nothing but a dash behind it, is an open range. */
  lemma OpenRange(a: u64)
    ensures ParseRange(Print(a)) == ParseRange(Print(a) + [45]) == Some(Range(a, 0))
  {
    PrintIsPlain(a, DASH);
    SplitOne(Print(a), DASH);
    SplitFirst(Print(a), DASH, []);
    assert Print(a) + [DASH] + [] == Print(a) + [DASH] && Split([], DASH) == [];
    ScanUndoesPrint(a);
  }

  /** A text that begins with the dash has no start. */
  lemma NoStart(t: Text)
    ensures ParseRange([45] + t) == None
  {
    EmptyFirst(t);
    ScanFails([], [], []);
    var none: Text := [];
    assert none + (none + none) == none;
  }

  lemma EmptyFirst(t: Text)
    ensures Split([45] + t, DASH) != [] && Split([45] + t, DASH)[0] == []
  {
    SplitFirst([], DASH, t);
    assert [] + [DASH] + t == [45] + t;
  }

  /** An end that is no number counts as 0. */
  lemma BadEnd(a: u64, t: Text)
    requires t != [] && DASH !in t && ScanU64(t) == None
    ensures ParseRange(Print(a) + [45] + t) == Some(Range(a, (0 - a) % 0x1_0000_0000_0000_0000))
  {
    BadTokens(a, t);
    RangeOfTokens(Print(a) + [DASH] + t, a, 0);
  }

  lemma BadTokens(a: u64, t: Text)
    requires t != [] && DASH !in t && ScanU64(t) == None
    ensures var raw := Split(Print(a) + [DASH] + t, DASH); |raw| >= 2 && raw[0] == Print(a) && ScanEnd(raw[1]) == 0
  {
    SplitEnd(a, t);
  }

  /** Only the first two tokens count. */
  lemma RangeOfTokens(t: Text, a: u64, b: u64)
    requires var raw := Split(t, DASH); |raw| >= 2 && raw[0] == Print(a) && ScanEnd(raw[1]) == b
    ensures ParseRange(t) == Some(Range(a, (b - a) % 0x1_0000_0000_0000_0000))
  {
    ScanUndoesPrint(a);
  }

  /** The texts of ranges, letter by letter: 0-500 and 7-, then 0-500/500/last and 7-7/500/more. */
  lemma ExampleTexts()
    ensures Range(0, 500).ToText() == [48, 45, 53, 48, 48] && Range(7, 0).ToText() == [55, 45]
  {
    PrintExample();
    assert Print(0) == [48];
  }

  lemma ExampleContentTexts()
    ensures ContentRange(0, 500, 500, true).ToText()
         == [48, 45, 53, 48, 48, 47, 53, 48, 48, 47, 108, 97, 115, 116]
    ensures ContentRange(7, 0, 500, false).ToText() == [55, 45, 55, 47, 53, 48, 48, 47, 109, 111, 114, 101]
  {
    PrintExample();
    assert Print(0) == [48];
    Labels();
  }

  lemma Labels()
    ensures LAST == [108, 97, 115, 116] && MORE == [109, 111, 114, 101]
  {
    LabelsDiffer();
  }

  lemma SplitThree(a: Text, b: Text, c: Text)
    requires SLASH !in a && SLASH !in b && SLASH !in c && c != []
    ensures Split(a + [SLASH] + b + [SLASH] + c, SLASH) == [a, b, c]
  {
    assert a + [SLASH] + b + [SLASH] + c == a + [SLASH] + (b + [SLASH] + c);
    SplitFirst(a, SLASH, b + [SLASH] + c);
    SplitFirst(b, SLASH, c);
    SplitOne(c, SLASH);
  }

  /**
   * Any three numbers and a word, written as a content range: the size is the difference of the ends modulo 2^64, and
   * the flag is set by the word "last" and by no other. What follows a second dash or a third slash is ignored.
   */
  lemma ContentRangeOf(a: u64, b: u64, extra: Text, total: u64, word: Text, more: Text)
    requires SLASH !in extra && (extra == [] || extra[0] == 45)
    requires word != [] && SLASH !in word && (more == [] || more[0] == 47)
    ensures ParseContentRange(Print(a) + [45] + (Print(b) + extra) + [47] + (Print(total) + [47] + (word + more)))
         == Some(ContentRange(a, (b - a) % 0x1_0000_0000_0000_0000, total, word == [108, 97, 115, 116]))
  {
    var ends := Print(a) + [DASH] + (Print(b) + extra);
    NoSlashInEnds(a, b, extra);
    EndTokens(a, b, extra);
    ThreeTokens(ends, total, word, more);
    ParseTokens(ends + [SLASH] + (Print(total) + [SLASH] + (word + more)), a, b, total, word);
  }

  lemma ThreeTokens(ends: Text, total: u64, word: Text, more: Text)
    requires SLASH !in ends && word != [] && SLASH !in word && (more == [] || more[0] == SLASH)
    ensures var raw := Split(ends + [SLASH] + (Print(total) + [SLASH] + (word + more)), SLASH);
            |raw| >= 3 && raw[0] == ends && raw[1] == Print(total) && raw[2] == word
  {
    PrintIsPlain(total, SLASH);
    SplitTwo(ends, Print(total), SLASH, word + more);
    FirstToken(word, SLASH, more);
  }

  lemma NoSlashInEnds(a: u64, b: u64, extra: Text)
    requires SLASH !in extra
    ensures SLASH !in Print(a) + [DASH] + (Print(b) + extra)
  {
    PrintIsPlain(a, SLASH);
    PrintIsPlain(b, SLASH);
  }

  lemma FirstToken(t: Text, c: byte, more: Text)
    requires t != [] && c !in t && (more == [] || more[0] == c)
    ensures Split(t + more, c) != [] && Split(t + more, c)[0] == t
  {
    IndexOfPrefix(t, c, more);
  }

  lemma EndTokens(a: u64, b: u64, extra: Text)
    requires extra == [] || extra[0] == DASH
    ensures var ends := Split(Print(a) + [DASH] + (Print(b) + extra), DASH);
            |ends| >= 2 && ends[0] == Print(a) && ends[1] == Print(b)
  {
    PrintIsPlain(a, DASH);
    PrintIsPlain(b, DASH);
    SplitFirst(Print(a), DASH, Print(b) + extra);
    FirstToken(Print(b), DASH, extra);
  }

  lemma ParseTokens(t: Text, a: u64, b: u64, total: u64, word: Text)
    requires var raw := Split(t, SLASH); |raw| >= 3 && raw[1] == Print(total) && raw[2] == word
    requires var ends := Split(Split(t, SLASH)[0], DASH); |ends| >= 2 && ends[0] == Print(a) && ends[1] == Print(b)
    ensures ParseContentRange(t)
         == Some(ContentRange(a, (b - a) % 0x1_0000_0000_0000_0000, total, word == [108, 97, 115, 116]))
  {
    ScanUndoesPrint(a);
    ScanUndoesPrint(b);
    ScanUndoesPrint(total);
    Labels();
  }

  lemma ContentRangeTokens(r: ContentRange)
    ensures Split(r.ToText(), SLASH)
         == [Print(r.start) + [DASH] + Print(Add64(r.start, r.size)), Print(r.total), if r.last then LAST else MORE]
  {
    var end := Add64(r.start, r.size);
    LabelsDiffer();
    PrintIsPlain(r.start, SLASH);
    PrintIsPlain(end, SLASH);
    PrintIsPlain(r.total, SLASH);
    SplitThree(Print(r.start) + [DASH] + Print(end), Print(r.total), if r.last then LAST else MORE);
  }

  lemma ContentRangeRoundTrip(r: ContentRange)
    ensures ParseContentRange(r.ToText()) == Some(r)
  {
    var end := Add64(r.start, r.size);
    ContentRangeTokens(r);
    SplitEnds(r.start, end);
    ScanUndoesPrint(r.start);
    ScanUndoesPrint(end);
    ScanUndoesPrint(r.total);
    SubUndoesAdd(r.start, r.size);
    LabelsDiffer();
  }

  /** The text can travel as a header value: not empty, no colon, no NUL. */
  lemma RangeTextIsPlain(r: Range)
    ensures r.ToText() != [] && COLON !in r.ToText() && NUL !in r.ToText()
  {
    PrintIsPlain(r.start, COLON);
    PrintIsPlain(r.start, NUL);
    PrintIsPlain(Add64(r.start, r.size), COLON);
    PrintIsPlain(Add64(r.start, r.size), NUL);
  }

  lemma ContentRangeTextIsPlain(r: ContentRange)
    ensures r.ToText() != [] && COLON !in r.ToText() && NUL !in r.ToText()
  {
    LabelsDiffer();
    var end := Add64(r.start, r.size);
    forall c | c == COLON || c == NUL ensures c !in r.ToText() {
      PrintIsPlain(r.start, c);
      PrintIsPlain(end, c);
      PrintIsPlain(r.total, c);
    }
  }

  /** A printed 64-bit number has at most twenty digits. */
  lemma {:induction false} PrintLength(n: nat, digits: nat, bound: nat)
    requires digits >= 1 && n < bound && bound == Pow10(digits)
    ensures |Print(n)| <= digits
  {
    if n >= 10 {
      assert digits > 1;
      assert n / 10 < Pow10(digits - 1);
      PrintLength(n / 10, digits - 1, Pow10(digits - 1));
    }
  }

  function Pow10(k: nat): nat { if k == 0 then 1 else 10 * Pow10(k - 1) }

  lemma TwentyDigits(n: u64)
    ensures |Print(n)| <= 20
  {
    assert Pow10(5) == 100000;
    assert Pow10(10) == 10000000000 by { assert Pow10(7) == 10000000; }
    assert Pow10(15) == 1000000000000000 by { assert Pow10(12) == 1000000000000; }
    assert Pow10(20) == 100000000000000000000 by { assert Pow10(17) == 100000000000000000; }
    PrintLength(n, 20, Pow10(20));
  }

  /** Two ranges with one text are one range. */
  lemma RangeTextIsInjective(r: Range, s: Range)
    requires r.ToText() == s.ToText()
    ensures r == s
  {
    RangeRoundTrip(r);
    RangeRoundTrip(s);
  }
}
