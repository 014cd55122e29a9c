// splitstr: cutting a string at a separator with repeated getline calls.
module Splitting {
  import opened Octets

  /** The position of the first c, or the length when there is none. */
  function IndexOf(s: Text, c: byte): (i: nat)
    ensures i <= |s|
    ensures forall k | 0 <= k < i :: s[k] != c
    ensures i < |s| ==> s[i] == c
  {
    if s == [] || s[0] == c then 0 else IndexOf(s[1..], c) + 1
  }

  /** What getline leaves for the next call after the token that ends at i. */
  function AfterToken(s: Text, i: nat): Text
    requires i <= |s|
  {
    if i < |s| then s[i + 1..] else []
  }

  /** The tokens of s. Nothing follows a separator at the very end, so the last empty token is lost. */
  function Split(s: Text, c: byte): (ts: seq<Text>)
    decreases |s|
  {
    if s == [] then []
    else var i := IndexOf(s, c); [s[..i]] + Split(AfterToken(s, i), c)
  }

  /** One getline call moves one token to the front part. */
  lemma SplitStep(ret: seq<Text>, rest: Text, c: byte)
    requires rest != []
    ensures var i := IndexOf(rest, c);
            ret + Split(rest, c) == (ret + [rest[..i]]) + Split(AfterToken(rest, i), c)
  {
  }

  method FindSeparator(s: Text, c: byte) returns (i: nat)
    ensures i == IndexOf(s, c)
  {
    i := 0;
    while i < |s| && s[i] != c
      invariant i <= IndexOf(s, c)
    {
      i := i + 1;
    }
  }

  method SplitStr(s: Text, c: byte) returns (ret: seq<Text>)
    ensures ret == Split(s, c)
  {
    ret := [];
    var rest := s;
    ghost var goal := Split(s, c);
    while rest != []
      invariant ret + Split(rest, c) == goal
      decreases |rest|
    {
      SplitStep(ret, rest, c);
      var i := FindSeparator(rest, c);
      ret := ret + [rest[..i]];
      rest := AfterToken(rest, i);
    }
  }

  /** Tokens written out again with separators between them. */
  function Join(ts: seq<Text>, c: byte): Text {
    if ts == [] then []
    else if |ts| == 1 then ts[0]
    else ts[0] + [c] + Join(ts[1..], c)
  }

  /** Splitting loses nothing but one separator at the very end. */
  lemma {:induction false} JoinUndoesSplit(s: Text, c: byte)
    ensures s == Join(Split(s, c), c) || s == Join(Split(s, c), c) + [c]
    decreases |s|
  {
    if s != [] {
      var i := IndexOf(s, c);
      var ts := Split(AfterToken(s, i), c);
      JoinUndoesSplit(AfterToken(s, i), c);
      JoinCons(s[..i], ts, c);
      if i < |s| {
        CutAt(s, c, i, Join(ts, c));
      }
    }
  }

  lemma CutAt(s: Text, c: byte, i: nat, joined: Text)
    requires i < |s| && s[i] == c
    ensures s == s[..i] + [c] + s[i + 1..]
    ensures s[..i] + [c] + (joined + [c]) == (s[..i] + [c] + joined) + [c]
  {
  }

  lemma JoinCons(t: Text, ts: seq<Text>, c: byte)
    ensures Join([t] + ts, c) == if ts == [] then t else t + [c] + Join(ts, c)
  {
    if ts != [] {
      assert ([t] + ts)[1..] == ts;
    }
  }

  /** No token holds the separator, and every token byte comes from the string. */
  lemma {:induction false} TokensAreClean(s: Text, c: byte, k: nat)
    requires k < |Split(s, c)|
    ensures c !in Split(s, c)[k]
    ensures forall x | x in Split(s, c)[k] :: x in s
    decreases |s|
  {
    var i := IndexOf(s, c);
    var rest := AfterToken(s, i);
    assert Split(s, c) == [s[..i]] + Split(rest, c);
    if k > 0 {
      TokensAreClean(rest, c, k - 1);
      assert Split(s, c)[k] == Split(rest, c)[k - 1];
      assert forall x | x in rest :: x in s;
    }
  }

  lemma {:induction false} IndexOfPrefix(a: Text, c: byte, rest: Text)
    requires c !in a && (rest == [] || rest[0] == c)
    ensures IndexOf(a + rest, c) == |a|
  {
    if a == [] {
      assert a + rest == rest;
    } else {
      assert (a + rest)[1..] == a[1..] + rest;
      IndexOfPrefix(a[1..], c, rest);
    }
  }

  lemma SplitOne(a: Text, c: byte)
    requires c !in a && a != []
    ensures Split(a, c) == [a]
  {
    IndexOfPrefix(a, c, []);
    assert a + [] == a;
    assert Split([], c) == [];
  }

  /** Two clean tokens, each with its separator, and whatever follows. */
  lemma SplitTwo(a: Text, b: Text, c: byte, rest: Text)
    requires c !in a && c !in b
    ensures Split(a + [c] + (b + [c] + rest), c) == [a, b] + Split(rest, c)
  {
    SplitFirst(a, c, b + [c] + rest);
    SplitFirst(b, c, rest);
  }

  /** A clean first token, the separator, and whatever follows. */
  lemma SplitFirst(a: Text, c: byte, rest: Text)
    requires c !in a
    ensures Split(a + [c] + rest, c) == [a] + Split(rest, c)
  {
    var s := a + ([c] + rest);
    IndexOfPrefix(a, c, [c] + rest);
    assert a + [c] + rest == s;
    assert s[..|a|] == a && s[|a| + 1..] == rest;
  }
}
