/**
 * A host's distance table: a Hashtable from (destination, neighbour) pairs
 * to the cost of reaching the destination through that neighbour. The
 * queries walk the key set in the Hashtable's iteration order, which is not
 * specified; here that order is whatever GetOrderedPairs picks, and every
 * contract holds for any order.
 */
module DistanceTables {
  import opened Text
  import opened Distances
  import opened OrderedPairs

  type Table = map<PairKey, Dist>

  /** The destinations that occur in the keys. */
  function DestSet(t: Table): set<string>
  {
    set k | k in t :: k.dest
  }

  /** The neighbours that occur in the keys. */
  function NeighborSet(t: Table): set<string>
  {
    set k | k in t :: k.neighbor
  }

  /**
   * `r` is the least cost stored for destination `d`: no entry for `d` is
   * below it, and unless it is infinity some entry for `d` holds it.
   */
  predicate IsMinDistance(t: Table, d: string, r: Dist)
  {
    (forall k :: k in t && k.dest == d ==> AtMost(r, t[k])) &&
    (r.Fin? ==> exists k :: k in t && k.dest == d && t[k] == r)
  }

  /**
   * `hop` is a next hop towards `d`: null exactly when every entry for `d`
   * is infinite, and otherwise a neighbour whose entry is the least one.
   */
  predicate IsNextHop(t: Table, d: string, hop: Option<string>)
  {
    (hop.None? <==> forall k :: k in t && k.dest == d ==> t[k] == Inf) &&
    (hop.Some? ==> PairKey(d, hop.value) in t && IsMinDistance(t, d, t[PairKey(d, hop.value)]))
  }

  /** There is only one least cost. */
  lemma MinDistanceUnique(t: Table, d: string, r1: Dist, r2: Dist)
    requires IsMinDistance(t, d, r1) && IsMinDistance(t, d, r2)
    ensures r1 == r2
  {
    if r1.Fin? {
      var k :| k in t && k.dest == d && t[k] == r1;
    }
    if r2.Fin? {
      var k :| k in t && k.dest == d && t[k] == r2;
    }
  }

  /**
   * getNextHop and getMinDistanceTo agree: the hop is null exactly when the
   * least cost is infinity, and otherwise its entry holds the least cost.
   */
  lemma NextHopAgreesWithMin(t: Table, d: string, hop: Option<string>, r: Dist)
    requires IsNextHop(t, d, hop) && IsMinDistance(t, d, r)
    ensures hop.None? <==> r == Inf
    ensures hop.Some? ==> t[PairKey(d, hop.value)] == r
  {
    if hop.Some? {
      MinDistanceUnique(t, d, r, t[PairKey(d, hop.value)]);
    }
  }

  class DistanceTable {
    var entries: Table

    constructor ()
      ensures entries == map[]
    {
      entries := map[];
    }

    /** The keys, each once, in some order. */
    method GetOrderedPairs() returns (pairs: seq<PairKey>)
      ensures Distinct(pairs)
      ensures forall k :: k in pairs <==> k in entries
    {
      pairs := [];
      var rest := entries.Keys;
      while rest != {}
        invariant Distinct(pairs)
        invariant forall k :: k in entries <==> k in pairs || k in rest
        invariant forall k :: k in pairs ==> k !in rest
        decreases |rest|
      {
        var k :| k in rest;
        pairs := pairs + [k];
        rest := rest - {k};
      }
    }

    /** Every neighbour named in a key, once each. */
    method GetNeighbors() returns (neighbors: seq<string>)
      ensures Distinct(neighbors)
      ensures forall n :: n in neighbors <==> n in NeighborSet(entries)
    {
      var pairs := GetOrderedPairs();
      neighbors := [];
      for i := 0 to |pairs|
        invariant Distinct(neighbors)
        invariant forall n :: n in neighbors <==> exists j :: 0 <= j < i && pairs[j].neighbor == n
      {
        if pairs[i].neighbor !in neighbors {
          neighbors := neighbors + [pairs[i].neighbor];
        }
      }
      forall n | n in NeighborSet(entries)
        ensures n in neighbors
      {
        var k :| k in entries && k.neighbor == n;
        var j :| 0 <= j < |pairs| && pairs[j] == k;
      }
    }

    /** Every destination named in a key, once each. */
    method GetDestinations() returns (dests: seq<string>)
      ensures Distinct(dests)
      ensures forall d :: d in dests <==> d in DestSet(entries)
    {
      var pairs := GetOrderedPairs();
      dests := [];
      for i := 0 to |pairs|
        invariant Distinct(dests)
        invariant forall d :: d in dests <==> exists j :: 0 <= j < i && pairs[j].dest == d
      {
        if pairs[i].dest !in dests {
          dests := dests + [pairs[i].dest];
        }
      }
      forall d | d in DestSet(entries)
        ensures d in dests
      {
        var k :| k in entries && k.dest == d;
        var j :| 0 <= j < |pairs| && pairs[j] == k;
      }
    }

    /** The least cost over the entries for `dest`, infinity if there are none. */
    method GetMinDistanceTo(dest: string) returns (dist: Dist)
      ensures IsMinDistance(entries, dest, dist)
      ensures (forall k :: k in entries ==> k.dest != dest) ==> dist == Inf
    {
      var pairs := GetOrderedPairs();
      dist := Inf;
      for i := 0 to |pairs|
        invariant forall j :: 0 <= j < i && pairs[j].dest == dest ==> AtMost(dist, entries[pairs[j]])
        invariant dist.Fin? ==> exists j :: 0 <= j < i && pairs[j].dest == dest && entries[pairs[j]] == dist
      {
        if pairs[i].dest == dest && Less(entries[pairs[i]], dist) {
          dist := entries[pairs[i]];
        }
      }
      forall k | k in entries && k.dest == dest
        ensures AtMost(dist, entries[k])
      {
        var j :| 0 <= j < |pairs| && pairs[j] == k;
      }
    }

    /** A neighbour through which `dest` is reached at least cost, or null. */
    method GetNextHop(dest: string) returns (hop: Option<string>)
      ensures IsNextHop(entries, dest, hop)
    {
      var pairs := GetOrderedPairs();
      hop := None;
      var dist := Inf;
      for i := 0 to |pairs|
        invariant forall j :: 0 <= j < i && pairs[j].dest == dest ==> AtMost(dist, entries[pairs[j]])
        invariant hop.None? <==> dist == Inf
        invariant hop.Some? ==> PairKey(dest, hop.value) in entries && entries[PairKey(dest, hop.value)] == dist
      {
        if pairs[i].dest == dest && Less(entries[pairs[i]], dist) {
          dist := entries[pairs[i]];
          hop := Some(pairs[i].neighbor);
        }
      }
      forall k | k in entries && k.dest == dest
        ensures AtMost(dist, entries[k])
      {
        var j :| 0 <= j < |pairs| && pairs[j] == k;
      }
    }

    /**
     * The least cost to every destination, each in a newly boxed Double:
     * no two destinations share a box and no box existed before.
     */
    method GetMinDistaneTable() returns (table: MinimumDistanceTable)
      ensures forall d :: d in table <==> d in DestSet(entries)
      ensures forall d :: d in table ==> IsMinDistance(entries, d, table[d].value)
      ensures forall d :: d in table ==> fresh(table[d])
      ensures forall d, e :: d in table && e in table && d != e ==> table[d] != table[e]
    {
      var dests := GetDestinations();
      table := map[];
      for i := 0 to |dests|
        invariant forall d :: d in table <==> d in dests[..i]
        invariant forall d :: d in table ==> IsMinDistance(entries, d, table[d].value)
        invariant forall d :: d in table ==> fresh(table[d])
        invariant forall d, e :: d in table && e in table && d != e ==> table[d] != table[e]
      {
        var dist := GetMinDistanceTo(dests[i]);
        var box := new BoxedDouble(dist);
        table := table[dests[i] := box];
      }
      assert dests[..|dests|] == dests;
    }
  }
}
