// Bytes, byte strings and fixed-width unsigned arithmetic.
// A std::string is a sequence of bytes here, so one type serves text and wire data.
module Octets {

  datatype Option<+T> = None | Some(value: T)

  const TWO_16 := 0x1_0000
  const TWO_24 := 0x100_0000
  const TWO_31 := 0x8000_0000
  const TWO_32 := 0x1_0000_0000
  const TWO_63 := 0x8000_0000_0000_0000
  const TWO_64 := 0x1_0000_0000_0000_0000

  type byte = b: int | 0 <= b < 0x100
  type u16 = n: int | 0 <= n < 0x1_0000
  type u32 = n: int | 0 <= n < 0x1_0000_0000
  type u64 = n: int | 0 <= n < 0x1_0000_0000_0000_0000

  type Text = seq<byte>

  const NUL: byte := 0
  const DASH: byte := 45
  const SLASH: byte := 47
  const COLON: byte := 58

  /** Unsigned 64-bit addition and subtraction, with wrap-around. */
  function Add64(a: u64, b: u64): u64 { (a + b) % TWO_64 }

  function Sub64(a: u64, b: u64): u64 { (a - b) % TWO_64 }

  lemma SubUndoesAdd(a: u64, b: u64)
    ensures Sub64(Add64(a, b), a) == b
  {
    if a + b < TWO_64 {
      assert Add64(a, b) == a + b;
    } else {
      assert Add64(a, b) == a + b - TWO_64;
      assert Sub64(Add64(a, b), a) == (b - TWO_64) % TWO_64 == b;
    }
  }

  function Min(a: nat, b: nat): nat { if a <= b then a else b }

  function Max(a: nat, b: nat): nat { if a <= b then b else a }

  /** The bytes of a literal. */
  function T(s: string): (t: Text)
    requires forall i | 0 <= i < |s| :: (s[i] as int) < 0x100
    ensures |t| == |s| && forall i | 0 <= i < |s| :: t[i] == s[i] as int
  {
    seq(|s|, i requires 0 <= i < |s| => s[i] as int)
  }

  function Zeros(n: nat): (z: seq<byte>)
    ensures |z| == n && forall i | 0 <= i < n :: z[i] == 0
  {
    seq(n, _ => 0)
  }

  /** All the sequences of xs, one after the other. */
  function Concat<X>(xs: seq<seq<X>>): seq<X> {
    if xs == [] then [] else xs[0] + Concat(xs[1..])
  }

  lemma {:induction false} ConcatAppend<X>(xs: seq<seq<X>>, ys: seq<seq<X>>)
    ensures Concat(xs + ys) == Concat(xs) + Concat(ys)
  {
    if xs == [] {
      assert xs + ys == ys;
    } else {
      assert (xs + ys)[1..] == xs[1..] + ys;
      ConcatAppend(xs[1..], ys);
    }
  }

  lemma ConcatSnoc<X>(xs: seq<seq<X>>, y: seq<X>)
    ensures Concat(xs + [y]) == Concat(xs) + y
  {
    ConcatAppend(xs, [y]);
    assert Concat([y]) == y + Concat([]);
  }

  /** One sequence cut in two ways, the second time not later. */
  lemma CutTwice<X>(a: seq<X>, b: seq<X>, c: seq<X>, d: seq<X>)
    requires a + b == c + d && |c| <= |a|
    ensures a[..|c|] == c && a[|c|..] + b == d
  {
    var s := a + b;
    assert a[..|c|] == s[..|c|] == (c + d)[..|c|] == c;
    assert a[|c|..] + b == s[|c|..] == (c + d)[|c|..] == d;
  }

  /** Copies bs into the buffer at position at. */
  method Put(a: array<byte>, at: nat, bs: seq<byte>)
    requires at + |bs| <= a.Length
    modifies a
    ensures a[..] == old(a[..at]) + bs + old(a[at + |bs|..])
  {
    for i := 0 to |bs|
      invariant a[..] == old(a[..at]) + bs[..i] + old(a[at + i..])
    {
      a[at + i] := bs[i];
    }
  }
}
