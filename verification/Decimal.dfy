// Decimal text: what an ostream prints for an unsigned number and what sscanf("%lu") reads.
module Decimal {
  import opened Octets

  const PLUS: byte := 43

  predicate IsDigit(b: byte) { 48 <= b <= 57 }

  /** The characters isspace accepts: the blank and the five control characters from tab on. */
  predicate IsSpace(b: byte) { b == 32 || 9 <= b <= 13 }

  function Print(n: nat): (t: Text)
    ensures t != [] && forall x | x in t :: IsDigit(x)
  {
    if n < 10 then [48 + n] else Print(n / 10) + [48 + n % 10]
  }

  function ValueOf(t: Text): nat
    requires forall x | x in t :: IsDigit(x)
  {
    if t == [] then 0
    else
      assert IsDigit(t[|t| - 1]);
      ValueOf(t[..|t| - 1]) * 10 + t[|t| - 1] as int - 48
  }

  function DigitRun(t: Text): (k: nat)
    ensures k <= |t| && forall x | x in t[..k] :: IsDigit(x)
  {
    if t == [] || !IsDigit(t[0]) then 0
    else
      var k := DigitRun(t[1..]);
      assert t[..k + 1] == [t[0]] + t[1..][..k];
      k + 1
  }

  function SkipSpace(t: Text): Text {
    if t != [] && IsSpace(t[0]) then SkipSpace(t[1..]) else t
  }

  /**
   * sscanf(t, "%lu", &n): leading blanks, one optional sign, digits. Too large a number reads as the
   * largest one, a minus sign negates modulo 2^64. None when n is left unset.
   */
  function ScanU64(t: Text): Option<u64> {
    var s := SkipSpace(t);
    var signed := s != [] && (s[0] == DASH || s[0] == PLUS);
    var ds := if signed then s[1..] else s;
    var k := DigitRun(ds);
    if k == 0 then None
    else
      var v := ValueOf(ds[..k]);
      if v >= TWO_64 then Some(TWO_64 - 1)
      else if signed && s[0] == DASH then Some(Sub64(0, v))
      else Some(v)
  }

  /** For example 500 and 7. */
  lemma PrintExample()
    ensures Print(500) == [53, 48, 48] && Print(7) == [55]
  {
    assert Print(500) == Print(50) + [48] && Print(50) == Print(5) + [48];
  }

  lemma {:induction false} ValueOfPrint(n: nat)
    ensures ValueOf(Print(n)) == n
  {
    if n >= 10 {
      var t := Print(n);
      assert t[..|t| - 1] == Print(n / 10);
      ValueOfPrint(n / 10);
    }
  }

  lemma {:induction false} DigitRunAll(t: Text)
    requires forall x | x in t :: IsDigit(x)
    ensures DigitRun(t) == |t|
  {
    if t != [] {
      DigitRunAll(t[1..]);
    }
  }

  /** Scanning a printed number gives it back, for every 64-bit number. */
  lemma ScanUndoesPrint(n: u64)
    ensures ScanU64(Print(n)) == Some(n)
  {
    var t := Print(n);
    assert t[0] in t;
    DigitRunAll(t);
    assert t[..|t|] == t;
    ValueOfPrint(n);
  }

  /** Leading zeros do not count. */
  lemma {:induction false} LeadingZero(ds: Text)
    requires forall x | x in ds :: IsDigit(x)
    ensures (forall x | x in [48] + ds :: IsDigit(x)) && ValueOf([48] + ds) == ValueOf(ds)
    decreases |ds|
  {
    var t: Text := [48] + ds;
    assert forall x | x in t :: IsDigit(x);
    if ds != [] {
      assert t[..|t| - 1] == [48] + ds[..|ds| - 1];
      LeadingZero(ds[..|ds| - 1]);
    }
  }

  /**
   * Any text that begins with a number: blanks, at most one sign, digits up to the first byte that is none. What
   * follows does not matter. From 2^64 on the largest number is read, and a minus sign negates modulo 2^64.
   */
  lemma ScanMeans(blanks: Text, sign: Text, ds: Text, rest: Text)
    requires forall x | x in blanks :: x == 32 || 9 <= x <= 13
    requires sign == [] || sign == [43] || sign == [45]
    requires ds != [] && (forall x | x in ds :: IsDigit(x)) && (rest == [] || !IsDigit(rest[0]))
    ensures ScanU64(blanks + (sign + (ds + rest)))
         == if ValueOf(ds) >= 0x1_0000_0000_0000_0000 then Some(0xFFFF_FFFF_FFFF_FFFF)
            else if sign == [45] then Some((0 - ValueOf(ds)) % 0x1_0000_0000_0000_0000)
            else Some(ValueOf(ds))
  {
    var s, t := sign + (ds + rest), ds + rest;
    assert t[0] == ds[0] && ds[0] in ds;
    assert sign == [] ==> s == t;
    assert sign != [] ==> s[0] == sign[0] && s[1..] == t;
    BlanksSkipped(blanks, s);
    DigitsEnd(ds, rest);
  }

  /** Without a digit there, no number is read. */
  lemma ScanFails(blanks: Text, sign: Text, rest: Text)
    requires forall x | x in blanks :: x == 32 || 9 <= x <= 13
    requires sign == [] || sign == [43] || sign == [45]
    requires rest == [] || (!IsDigit(rest[0]) && !IsSpace(rest[0]) && rest[0] != 43 && rest[0] != 45)
    ensures ScanU64(blanks + (sign + rest)) == None
  {
    BlanksSkipped(blanks, sign + rest);
    assert sign == [] ==> sign + rest == rest;
    assert sign != [] ==> (sign + rest)[1..] == rest;
  }

  lemma {:induction false} BlanksSkipped(blanks: Text, t: Text)
    requires forall x | x in blanks :: IsSpace(x)
    requires t == [] || !IsSpace(t[0])
    ensures SkipSpace(blanks + t) == t
    decreases |blanks|
  {
    if blanks == [] {
      assert blanks + t == t;
    } else {
      assert (blanks + t)[1..] == blanks[1..] + t;
      BlanksSkipped(blanks[1..], t);
    }
  }

  lemma {:induction false} DigitsEnd(ds: Text, rest: Text)
    requires (forall x | x in ds :: IsDigit(x)) && (rest == [] || !IsDigit(rest[0]))
    ensures DigitRun(ds + rest) == |ds| && (ds + rest)[..|ds|] == ds
    decreases |ds|
  {
    if ds == [] {
      assert ds + rest == rest;
    } else {
      assert (ds + rest)[1..] == ds[1..] + rest;
      DigitsEnd(ds[1..], rest);
    }
  }

  /** What must not appear in a header value or split a range text does not appear in a number. */
  lemma PrintIsPlain(n: nat, c: byte)
    requires !IsDigit(c)
    ensures c !in Print(n)
  {
    assert forall x | x in Print(n) :: IsDigit(x);
  }
}
