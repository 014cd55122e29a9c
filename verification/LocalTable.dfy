// Comparing a peer's resource table with the local one.
module LocalTable {
  import opened Octets

  /** A table row. The four fixed arrays of the struct appear as the strings they hold. */
  datatype Resource = Resource(name: Text, uri: Text, path: Text, hash: Text, size: u64)

  /** What operator[] makes for a name that is absent: an array of zero bytes is the empty string. */
  const ZERO := Resource([], [], [], [], 0)

  /** The byte a char pointer to this string points at. */
  function First(t: Text): byte { if t == [] then NUL else t[0] }

  /** compareChar: the pointers never move, so only the first bytes are ever compared. */
  method CompareChar(l: Text, r: Text, cnt: nat) returns (same: bool)
    ensures same <==> cnt == 0 || First(l) == First(r)
  {
    for i := 0 to cnt
      invariant i > 0 ==> First(l) == First(r)
    {
      if First(l) != First(r) {
        return false;
      }
    }
    return true;
  }

  predicate SameHash(rs: Resource, here: Resource) { rs.hash == [] || First(rs.hash) == First(here.hash) }

  /** The last row of that name that has a uri. */
  function LastOffer(peer: seq<Resource>, name: Text): Option<Resource> {
    if peer == [] then None
    else
      var rs := peer[|peer| - 1];
      if rs.uri != [] && rs.name == name then Some(rs) else LastOffer(peer[..|peer| - 1], name)
  }

  /** This row is worth fetching although that one is here. */
  predicate Beats(rs: Resource, here: Resource) {
    rs.name != [] && (rs.size > here.size || (rs.size == here.size && !SameHash(rs, here)))
  }

  ghost predicate Wanted(peer: seq<Resource>, local: seq<Resource>, name: Text) {
    var rs := LastOffer(peer, name);
    rs.Some? && forall l | l in local :: l.name == name ==> Beats(rs.value, l)
  }

  lemma {:induction false} LastOfferName(peer: seq<Resource>, name: Text)
    ensures LastOffer(peer, name).Some? ==> LastOffer(peer, name).value.name == name
  {
    if peer != [] {
      LastOfferName(peer[..|peer| - 1], name);
    }
  }

  lemma {:induction false} LastOfferHasUri(peer: seq<Resource>, name: Text)
    ensures LastOffer(peer, name).Some? ==> LastOffer(peer, name).value.uri != []
  {
    if peer != [] {
      LastOfferHasUri(peer[..|peer| - 1], name);
    }
  }

  /** The last offer is the row that stands last among those of the name with a uri. */
  lemma {:induction false} LastOfferAt(peer: seq<Resource>, i: nat)
    requires i < |peer| && peer[i].uri != []
    requires forall j | i < j < |peer| && peer[j].uri != [] :: peer[j].name != peer[i].name
    ensures LastOffer(peer, peer[i].name) == Some(peer[i])
    decreases |peer|
  {
    if i < |peer| - 1 {
      assert peer[..|peer| - 1][i] == peer[i];
      LastOfferAt(peer[..|peer| - 1], i);
    }
  }

  /** There is none when no row of the name has a uri. */
  lemma {:induction false} NoOffer(peer: seq<Resource>, name: Text)
    requires forall rs | rs in peer && rs.name == name :: rs.uri == []
    ensures LastOffer(peer, name) == None
    decreases |peer|
  {
    if peer != [] {
      assert peer[|peer| - 1] in peer;
      NoOffer(peer[..|peer| - 1], name);
    }
  }

  /** The map from names to the rows to fetch, whatever the order and the duplicates of both tables. */
  method CmpThenRetNeedToSyncTable(peer: seq<Resource>, local: seq<Resource>) returns (want: map<Text, Resource>)
    ensures forall name :: name in want <==> Wanted(peer, local, name)
    ensures forall name | name in want :: LastOffer(peer, name) == Some(want[name])
    ensures forall l | l in local && l.name in want ::
              want[l.name].size > l.size || (want[l.name].size == l.size && want[l.name].hash != [])
    ensures forall name | LargerOffer(peer, local, name) && name != [] :: name in want
    ensures [] in want ==> forall l | l in local :: l.name != []
  {
    var filtered := LastOffers(peer);
    if |filtered| == 0 {
      assert forall name :: name !in filtered;
      WantedSizes(peer, local, map[]);
      return map[];
    }
    ghost var all := filtered;
    for i := 0 to |local|
      invariant forall name :: name in filtered <==> Wanted(peer, local[..i], name)
      invariant forall name | name in filtered :: LastOffer(peer, name) == Some(filtered[name])
    {
      var here := local[i];
      assert local[..i + 1] == local[..i] + [here];
      LastOfferName(peer, here.name);
      var rs := if here.name in filtered then filtered[here.name] else ZERO;
      filtered := filtered[here.name := rs];
      if rs.name == [] || rs.size < here.size {
        filtered := filtered - {here.name};
      } else if rs.size == here.size {
        var same := CompareChar(rs.hash, here.hash, |rs.hash|);
        if same {
          filtered := filtered - {here.name};
        }
      }
    }
    assert local[..|local|] == local;
    want := filtered;
    WantedSizes(peer, local, want);
  }

  method LastOffers(peer: seq<Resource>) returns (filtered: map<Text, Resource>)
    ensures forall name :: name in filtered <==> LastOffer(peer, name).Some?
    ensures forall name | name in filtered :: LastOffer(peer, name) == Some(filtered[name])
  {
    filtered := map[];
    for i := 0 to |peer|
      invariant forall name :: name in filtered <==> LastOffer(peer[..i], name).Some?
      invariant forall name | name in filtered :: LastOffer(peer[..i], name) == Some(filtered[name])
    {
      assert peer[..i + 1][..i] == peer[..i];
      if |peer[i].uri| == 0 {
        continue;
      }
      filtered := filtered[peer[i].name := peer[i]];
    }
    assert peer[..|peer|] == peer;
  }

  /** The last offer of the name is larger than every row of it that is here, if there is any. */
  ghost predicate LargerOffer(peer: seq<Resource>, local: seq<Resource>, name: Text) {
    LastOffer(peer, name).Some? && forall l | l in local && l.name == name :: l.size < LastOffer(peer, name).value.size
  }

  /** A larger file is fetched, and one that is smaller than a row here is not. */
  lemma SizesDecide(peer: seq<Resource>, local: seq<Resource>, name: Text)
    requires LastOffer(peer, name).Some? && name != []
    ensures LargerOffer(peer, local, name) ==> Wanted(peer, local, name)
    ensures (exists l :: l in local && l.name == name && l.size > LastOffer(peer, name).value.size) ==>
      !Wanted(peer, local, name)
  {
    LastOfferName(peer, name);
  }

  lemma WantedSizes(peer: seq<Resource>, local: seq<Resource>, want: map<Text, Resource>)
    requires forall name :: name in want <==> Wanted(peer, local, name)
    requires forall name | name in want :: LastOffer(peer, name) == Some(want[name])
    ensures forall l | l in local && l.name in want ::
              want[l.name].size > l.size || (want[l.name].size == l.size && want[l.name].hash != [])
    ensures forall name | LargerOffer(peer, local, name) && name != [] :: name in want
    ensures [] in want ==> forall l | l in local :: l.name != []
  {
    forall name | LargerOffer(peer, local, name) && name != [] ensures name in want {
      SizesDecide(peer, local, name);
    }
    EmptyName(peer, local);
  }

  /** A row without a name is fetched only when no row here is without one. */
  lemma EmptyName(peer: seq<Resource>, local: seq<Resource>)
    ensures Wanted(peer, local, []) ==> forall l | l in local :: l.name != []
  {
    LastOfferName(peer, []);
  }

  /**
   * A different file of the same size is fetched if and only if the two hashes differ in their first byte;
   * that they differ at all is not enough.
   */
  lemma SameSizeFetchedIff(peer: seq<Resource>, local: seq<Resource>, rs: Resource, here: Resource)
    requires LastOffer(peer, rs.name) == Some(rs) && rs.name != [] && rs.hash != [] && here.hash != []
    requires here in local && here.name == rs.name && here.size == rs.size && here.hash != rs.hash
    requires forall l | l in local && l.name == rs.name :: l == here
    ensures Wanted(peer, local, rs.name) <==> rs.hash[0] != here.hash[0]
  {
  }

  /** Two hashes that differ behind their first digit: the newer file is not fetched. */
  lemma DifferentFileNotFetched()
    ensures var theirs, ours := Resource([97], [47, 97], [], [48, 49], 5), Resource([97], [47, 97], [], [48, 50], 5);
            theirs.hash != ours.hash && !Wanted([theirs], [ours], [97])
  {
    var theirs, ours := Resource([97], [47, 97], [], [48, 49], 5), Resource([97], [47, 97], [], [48, 50], 5);
    assert theirs.hash[1] != ours.hash[1];
    assert LastOffer([theirs], [97]) == Some(theirs);
    assert ours in [ours] && SameHash(theirs, ours);
  }
}
