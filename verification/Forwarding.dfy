/** Forwarding pointers: chains of names that end at an address, shortened by path compression. */
module Forwarding {
  import opened Wrappers

  type Locations = map<string, string>

  /** Following pointers from this location leaves the table after exactly k hops. */
  ghost predicate EndsAfter(m: Locations, location: string, k: nat)
    decreases k
  {
    if k == 0 then location !in m else location in m && EndsAfter(m, m[location], k - 1)
  }

  ghost predicate Ends(m: Locations, location: string) {
    exists k: nat :: EndsAfter(m, location, k)
  }

  ghost function EndAfter(m: Locations, location: string, k: nat): string
    requires EndsAfter(m, location, k)
    decreases k
  {
    if k == 0 then location else EndAfter(m, m[location], k - 1)
  }

  ghost function Hops(m: Locations, location: string): nat
    requires Ends(m, location)
  {
    var k: nat :| EndsAfter(m, location, k);
    k
  }

  /** The final address that a location leads to. */
  ghost function Address(m: Locations, location: string): string
    requires Ends(m, location)
  {
    EndAfter(m, location, Hops(m, location))
  }

  /** Following pointers from this location meets d for the first time after exactly k hops. */
  ghost predicate MeetsAfter(m: Locations, location: string, d: string, k: nat)
    decreases k
  {
    if k == 0 then location == d
    else location != d && location in m && MeetsAfter(m, m[location], d, k - 1)
  }

  ghost predicate PassesThrough(m: Locations, location: string, d: string) {
    exists k: nat :: MeetsAfter(m, location, d, k)
  }

  /** No chain runs in circles. */
  ghost predicate Acyclic(m: Locations) {
    forall location :: Ends(m, location)
  }

  class ForwardingTable {
    var locations: Locations

    constructor (locations: Locations)
      ensures this.locations == locations
    {
      this.locations := locations;
    }

    /** On a chain that runs in circles the source never returns. */
    method Resolve(start: string) returns (address: string, hops: nat)
      requires Ends(locations, start)
      ensures hops == Hops(locations, start)
      ensures address == Address(locations, start)
      ensures address !in locations
    {
      var location := start;
      hops := 0;
      ghost var left := Hops(locations, start);
      while location in locations
        invariant EndsAfter(locations, location, left)
        invariant hops + left == Hops(locations, start)
        invariant EndAfter(locations, location, left) == Address(locations, start)
        decreases left
      {
        location := locations[location];
        hops := hops + 1;
        left := left - 1;
      }
      return location, hops;
    }

    /** The chain reduction: k is made to point straight at the address that it resolves to. */
    method Shorten(k: string) returns (address: string)
      requires Ends(locations, k)
      modifies this
      ensures address == Address(old(locations), k)
      ensures locations == old(locations)[k := address]
    {
      var hops;
      address, hops := Resolve(k);
      locations := locations[k := address];
    }

    /** Deleting a pointer that is not there is a key error. */
    method Delete(d: string) returns (r: Result<(), string>)
      modifies this
      ensures r.Ok? <==> d in old(locations)
      ensures r.Ok? ==> locations == old(locations) - {d}
      ensures r.Err? ==> locations == old(locations) && r.error == d
    {
      if d !in locations {
        return Err(d);
      }
      locations := map l | l in locations && l != d :: locations[l];
      return Ok(());
    }
  }

  // ---------------------------------------------------------------- chains

  lemma {:induction false} HopsAreUnique(m: Locations, location: string, j: nat, k: nat)
    requires EndsAfter(m, location, j) && EndsAfter(m, location, k)
    ensures j == k
    decreases j
  {
    if j == 0 || k == 0 {
    } else {
      HopsAreUnique(m, m[location], j - 1, k - 1);
    }
  }

  lemma ChainIs(m: Locations, location: string, k: nat)
    requires EndsAfter(m, location, k)
    ensures Ends(m, location) && Hops(m, location) == k && Address(m, location) == EndAfter(m, location, k)
  {
    HopsAreUnique(m, location, Hops(m, location), k);
  }

  lemma ChainStep(m: Locations, location: string)
    requires location in m
    ensures Ends(m, location) <==> Ends(m, m[location])
    ensures Ends(m, location) ==>
      Hops(m, location) == Hops(m, m[location]) + 1 && Address(m, location) == Address(m, m[location])
  {
    if Ends(m, location) {
      var k := Hops(m, location);
      assert EndsAfter(m, m[location], k - 1);
      ChainIs(m, m[location], k - 1);
    }
    if Ends(m, m[location]) {
      var k := Hops(m, m[location]);
      assert EndsAfter(m, location, k + 1);
      ChainIs(m, location, k + 1);
    }
  }

  lemma {:induction false} EndIsOutside(m: Locations, location: string, k: nat)
    requires EndsAfter(m, location, k)
    ensures EndAfter(m, location, k) !in m
    decreases k
  {
    if k == 0 {
    } else {
      EndIsOutside(m, m[location], k - 1);
    }
  }

  // ---------------------------------------------------------------- path compression

  lemma ShortenedKey(m: Locations, k: string)
    requires k in m && Ends(m, k)
    ensures var m' := m[k := Address(m, k)];
            Ends(m', k) && Hops(m', k) == 1 && Address(m', k) == Address(m, k)
  {
    var m' := m[k := Address(m, k)];
    EndIsOutside(m, k, Hops(m, k));
    assert EndsAfter(m', m'[k], 0);
    assert EndsAfter(m', k, 1);
    ChainIs(m', k, 1);
  }

  lemma {:induction false} ShortenedPrefix(m: Locations, k: string, location: string, n: nat)
    requires k in m && Ends(m, k) && MeetsAfter(m, location, k, n)
    ensures var m' := m[k := Address(m, k)];
            && Ends(m, location) && Hops(m, location) == n + Hops(m, k) && Address(m, location) == Address(m, k)
            && Ends(m', location) && Hops(m', location) == n + 1 && Address(m', location) == Address(m, k)
    decreases n
  {
    ShortenedKey(m, k);
    if n == 0 {
    } else {
      ShortenedPrefix(m, k, m[location], n - 1);
      ChainStep(m, location);
      ChainStep(m[k := Address(m, k)], location);
    }
  }

  lemma {:induction false} UnaffectedChain(m: Locations, m': Locations, k: string, location: string, n: nat)
    requires EndsAfter(m, location, n) && !PassesThrough(m, location, k)
    requires forall l :: l != k ==> (l in m <==> l in m') && (l in m ==> m[l] == m'[l])
    ensures Ends(m', location) && Hops(m', location) == n && Address(m', location) == EndAfter(m, location, n)
    decreases n
  {
    assert MeetsAfter(m, location, k, 0) <==> location == k;
    if n == 0 {
      ChainIs(m', location, 0);
    } else {
      if PassesThrough(m, m[location], k) {
        var j: nat :| MeetsAfter(m, m[location], k, j);
        assert MeetsAfter(m, location, k, j + 1);
      }
      UnaffectedChain(m, m', k, m[location], n - 1);
      ChainStep(m', location);
    }
  }

  lemma {:induction false} PassageIsLocal(m: Locations, m': Locations, k: string, location: string, n: nat)
    requires MeetsAfter(m, location, k, n)
    requires forall l :: l != k ==> (l in m <==> l in m') && (l in m ==> m[l] == m'[l])
    ensures MeetsAfter(m', location, k, n)
    decreases n
  {
    if n == 0 {
    } else {
      PassageIsLocal(m, m', k, m[location], n - 1);
    }
  }

  /**
   Path compression preserves resolution: every location still leads to the same address, those that led nowhere still
   lead nowhere, and exactly the chains through k get shorter, by all but one of the hops from k on.
   */
  lemma ShorteningPreservesResolution(m: Locations, k: string, location: string)
    requires k in m && Ends(m, k)
    ensures var m' := m[k := Address(m, k)];
            && (Ends(m', location) <==> Ends(m, location))
            && (Ends(m, location) ==>
                  && Address(m', location) == Address(m, location)
                  && Hops(m', location) ==
                     Hops(m, location) - (if PassesThrough(m, location, k) then Hops(m, k) - 1 else 0)
                  && Hops(m', location) <= Hops(m, location))
            && Ends(m', k) && Hops(m', k) == 1
  {
    var m' := m[k := Address(m, k)];
    ShortenedKey(m, k);
    ChainStep(m, k);
    if PassesThrough(m, location, k) {
      var n: nat :| MeetsAfter(m, location, k, n);
      ShortenedPrefix(m, k, location, n);
    } else {
      if Ends(m, location) {
        UnaffectedChain(m, m', k, location, Hops(m, location));
      }
      if Ends(m', location) {
        if PassesThrough(m', location, k) {
          var n: nat :| MeetsAfter(m', location, k, n);
          PassageIsLocal(m', m, k, location, n);
        }
        UnaffectedChain(m', m, k, location, Hops(m', location));
      }
    }
  }

  lemma ShorteningKeepsAcyclic(m: Locations, k: string)
    requires k in m && Acyclic(m)
    ensures Acyclic(m[k := Address(m, k)])
  {
    var m' := m[k := Address(m, k)];
    forall location
      ensures Ends(m', location)
    {
      ShorteningPreservesResolution(m, k, location);
    }
  }

  /** Shortening a name that is not in the table makes it point at itself: only a name that was there still resolves. */
  lemma ShorteningNeedsAnEntry(m: Locations, k: string)
    requires Ends(m, k)
    ensures Ends(m[k := Address(m, k)], k) <==> k in m
  {
    if k in m {
      ShortenedKey(m, k);
    } else {
      ChainIs(m, k, 0);
      var m' := m[k := k];
      forall n: nat
        ensures !EndsAfter(m', k, n)
      {
        SelfPointerNeverEnds(m', k, n);
      }
    }
  }

  lemma {:induction false} SelfPointerNeverEnds(m: Locations, k: string, n: nat)
    requires k in m && m[k] == k
    ensures !EndsAfter(m, k, n)
  {
    if n == 0 {
    } else {
      SelfPointerNeverEnds(m, k, n - 1);
    }
  }

  // ---------------------------------------------------------------- a broken link

  lemma {:induction false} BrokenPrefix(m: Locations, d: string, location: string, n: nat)
    requires d in m && MeetsAfter(m, location, d, n)
    ensures Ends(m - {d}, location) && Address(m - {d}, location) == d
    decreases n
  {
    if n == 0 {
      ChainIs(m - {d}, d, 0);
    } else {
      BrokenPrefix(m, d, m[location], n - 1);
      ChainStep(m - {d}, location);
    }
  }

  /**
   Deleting the pointer of d changes exactly the chains through d: they silently end at d, a name and not an address.
   Nothing raises a key error, for `resolve` tests for the entry before it reads it.
   */
  lemma DeletionCutsChains(m: Locations, d: string, location: string)
    requires d in m
    ensures var m' := m - {d};
            && (PassesThrough(m, location, d) ==> Ends(m', location) && Address(m', location) == d)
            && (!PassesThrough(m, location, d) ==> (Ends(m', location) <==> Ends(m, location)))
            && (!PassesThrough(m, location, d) && Ends(m, location) ==>
                  Address(m', location) == Address(m, location) && Hops(m', location) == Hops(m, location))
            && (Ends(m, location) ==>
                  (Address(m', location) != Address(m, location) <==> PassesThrough(m, location, d)))
  {
    var m' := m - {d};
    if PassesThrough(m, location, d) {
      var n: nat :| MeetsAfter(m, location, d, n);
      BrokenPrefix(m, d, location, n);
      if Ends(m, location) {
        EndIsOutside(m, location, Hops(m, location));
      }
    } else {
      if Ends(m, location) {
        UnaffectedChain(m, m', d, location, Hops(m, location));
      }
      if Ends(m', location) {
        if PassesThrough(m', location, d) {
          var n: nat :| MeetsAfter(m', location, d, n);
          PassageIsLocal(m', m, d, location, n);
        }
        UnaffectedChain(m', m, d, location, Hops(m', location));
      }
    }
  }
}
