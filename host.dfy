/**
 * A router of the distance-vector simulation. It keeps its neighbours, the
 * names of all hosts it knows, its distance table over (destination,
 * neighbour) pairs, and the latest table of minimum distances received from
 * each neighbour. `recalculate` is the update step: every entry
 * (dest, n) is lowered to the cost of reaching n plus n's own distance to
 * dest whenever that is cheaper.
 */
module Hosts {
  import opened Text
  import opened Distances
  import opened OrderedPairs
  import opened DistanceTables

  /** A lookup in the distance table in which a missing entry reads as infinity. */
  function Via(t: Table, k: PairKey): Dist
  {
    if k in t then t[k] else Inf
  }

  /** Entry `k` is the same in both tables: present in both with one value, or absent from both. */
  predicate SameAt(t: Table, u: Table, k: PairKey)
  {
    (k in t <==> k in u) && (k in t ==> t[k] == u[k])
  }

  /** No entry of `t` is above the same entry of `t0`. */
  ghost predicate NoneAbove(t0: Table, t: Table)
  {
    forall k :: AtMost(Via(t, k), Via(t0, k))
  }

  /** Some entry of `t` is strictly below the same entry of `t0`. */
  ghost predicate Decreased(t0: Table, t: Table)
  {
    exists k :: Less(Via(t, k), Via(t0, k))
  }

  /**
   * What recalculate offers for the entry (dest, n): the cost of the link to
   * n plus n's advertised distance to dest, or the link alone when dest is
   * n. The infinite fallbacks are never reached when CanRecalculate holds.
   */
  function Offer(t: Table, tables: map<string, MinimumDistanceTable>, dest: string, n: string): Dist
  {
    Add(Via(t, PairKey(n, n)),
        if dest == n then Fin(0)
        else if n in tables && dest in tables[n] then tables[n][dest].value
        else Inf)
  }

  /** One visit of the inner loop: the entry takes the offer when the offer is strictly lower. */
  function Relax(t: Table, tables: map<string, MinimumDistanceTable>, k: PairKey): Table
  {
    var offer := Offer(t, tables, k.dest, k.neighbor);
    if Less(offer, Via(t, k)) then t[k := offer] else t
  }

  /** The table after visiting the entries `vs` in order. */
  function RelaxAll(t: Table, tables: map<string, MinimumDistanceTable>, vs: seq<PairKey>): Table
    decreases |vs|
  {
    if vs == [] then t else Relax(RelaxAll(t, tables, vs[..|vs| - 1]), tables, vs[|vs| - 1])
  }

  /** The entries (dest, n) for one destination, in the order of `ns`. */
  function Row(dest: string, ns: seq<string>): (r: seq<PairKey>)
    ensures |r| == |ns| && forall j :: 0 <= j < |ns| ==> r[j] == PairKey(dest, ns[j])
  {
    seq(|ns|, j requires 0 <= j < |ns| => PairKey(dest, ns[j]))
  }

  /** The entries recalculate visits, in order: all neighbours for each known host other than self. */
  function Visits(self: string, ds: seq<string>, ns: seq<string>): seq<PairKey>
    decreases |ds|
  {
    if ds == [] then []
    else Visits(self, ds[..|ds| - 1], ns) + (if ds[|ds| - 1] == self then [] else Row(ds[|ds| - 1], ns))
  }

  /**
   * recalculate throws NullPointerException unless, for each known host
   * other than self and each neighbour n, the link entry (n, n) exists and,
   * when the host is not n itself, n's table gives a distance to it.
   */
  predicate CanRecalculate(t: Table, tables: map<string, MinimumDistanceTable>, self: string,
                           ds: seq<string>, ns: seq<string>)
  {
    forall i, j :: 0 <= i < |ds| && 0 <= j < |ns| && ds[i] != self ==>
      PairKey(ns[j], ns[j]) in t && (ds[i] != ns[j] ==> ns[j] in tables && ds[i] in tables[ns[j]])
  }

  /** setKnownHosts marks (dest, via) unknown: dest in `ds`, via in `vs`, neither one self, dest not a neighbour. */
  predicate Marked(self: string, neighbors: seq<string>, ds: seq<string>, vs: seq<string>, k: PairKey)
  {
    k.dest in ds && k.dest != self && k.dest !in neighbors && k.neighbor in vs && k.neighbor != self
  }

  /**
   * Whether putNeighborTable reports a change: some known host other than
   * self meets a missing previous table, or the two tables give different
   * boxes for it (compared by identity, as Java's != on Double does).
   */
  predicate TableChanged(previous: Option<MinimumDistanceTable>, table: MinimumDistanceTable,
                         self: string, known: seq<string>)
  {
    exists i :: 0 <= i < |known| && known[i] != self &&
      (previous.None? || Lookup(table, known[i]) != Lookup(previous.value, known[i]))
  }

  class Host {
    var hostName: string
    var neighbors: seq<string>
    var knownHosts: seq<string>
    const distanceTable: DistanceTable
    var neighborTables: map<string, MinimumDistanceTable>

    /** A host with an empty name and nothing known. */
    constructor ()
      ensures hostName == "" && neighbors == [] && knownHosts == [] && neighborTables == map[]
      ensures fresh(distanceTable) && distanceTable.entries == map[]
    {
      hostName := "";
      neighbors := [];
      knownHosts := [];
      distanceTable := new DistanceTable();
      neighborTables := map[];
    }

    /** A host with the given name and nothing known. */
    constructor Named(name: string)
      ensures hostName == name && neighbors == [] && knownHosts == [] && neighborTables == map[]
      ensures fresh(distanceTable) && distanceTable.entries == map[]
    {
      hostName := name;
      neighbors := [];
      knownHosts := [];
      distanceTable := new DistanceTable();
      neighborTables := map[];
    }

    function GetHostName(): string
      reads this
    {
      hostName
    }

    function GetKnownHosts(): seq<string>
      reads this
    {
      knownHosts
    }

    function GetNeighbors(): seq<string>
      reads this
    {
      neighbors
    }

    function GetDistanceTable(): DistanceTable
    {
      distanceTable
    }

    method SetHostName(name: string)
      modifies this`hostName
      ensures GetHostName() == name
    {
      hostName := name;
    }

    method SetNeighbors(ns: seq<string>)
      modifies this`neighbors
      ensures GetNeighbors() == ns
    {
      neighbors := ns;
    }

    /** Forgets every table received from a neighbour. */
    method ClearNeighborTable()
      modifies this`neighborTables
      ensures neighborTables == map[]
    {
      neighborTables := map[];
    }

    /** The next hop towards `dest`, from the distance table. */
    method GetNextHop(dest: string) returns (hop: Option<string>)
      ensures IsNextHop(distanceTable.entries, dest, hop)
    {
      hop := distanceTable.GetNextHop(dest);
    }

    /** The least cost to `dest`, from the distance table. */
    method GetMinDistanceTo(dest: string) returns (dist: Dist)
      ensures IsMinDistance(distanceTable.entries, dest, dist)
    {
      dist := distanceTable.GetMinDistanceTo(dest);
    }

    /**
     * Records a link: the neighbour is listed once among the neighbours and
     * the known hosts, and the entry (neighbor, neighbor) is its cost.
     */
    method AddNeighbor(neighbor: string, distance: Dist)
      modifies this`neighbors, this`knownHosts, distanceTable
      ensures neighbors == if neighbor in old(neighbors) then old(neighbors) else old(neighbors) + [neighbor]
      ensures knownHosts == if neighbor in old(knownHosts) then old(knownHosts) else old(knownHosts) + [neighbor]
      ensures old(multiset(neighbors)[neighbor]) <= 1 ==> multiset(neighbors)[neighbor] == 1
      ensures old(multiset(knownHosts)[neighbor]) <= 1 ==> multiset(knownHosts)[neighbor] == 1
      ensures distanceTable.entries == old(distanceTable.entries)[PairKey(neighbor, neighbor) := distance]
    {
      if neighbor !in neighbors {
        neighbors := neighbors + [neighbor];
      }
      if neighbor !in knownHosts {
        knownHosts := knownHosts + [neighbor];
      }
      distanceTable.entries := distanceTable.entries[PairKey(neighbor, neighbor) := distance];
    }

    /** The entry (dest, neighbor), or infinity when there is none. */
    method ToDestViaNeighbor(dest: string, neighbor: string) returns (distance: Dist)
      ensures PairKey(dest, neighbor) in distanceTable.entries ==> distance == distanceTable.entries[PairKey(dest, neighbor)]
      ensures PairKey(dest, neighbor) !in distanceTable.entries ==> distance == Inf
    {
      distance := Inf;
      if PairKey(dest, neighbor) in distanceTable.entries {
        distance := distanceTable.entries[PairKey(dest, neighbor)];
      }
    }

    /**
     * Adopts the list of known hosts and sets every route (dest, via) to
     * infinity where dest is a known host other than self that is not a
     * neighbour and via is a known host other than self. Other entries keep
     * what they had.
     */
    method SetKnownHosts(hosts: seq<string>)
      modifies this`knownHosts, distanceTable
      ensures knownHosts == hosts
      ensures forall k :: Marked(hostName, neighbors, hosts, hosts, k) ==>
                k in distanceTable.entries && distanceTable.entries[k] == Inf
      ensures forall k :: !Marked(hostName, neighbors, hosts, hosts, k) ==>
                SameAt(distanceTable.entries, old(distanceTable.entries), k)
    {
      knownHosts := hosts;
      ghost var t0 := distanceTable.entries;
      for i := 0 to |hosts|
        invariant knownHosts == hosts
        invariant forall k :: Marked(hostName, neighbors, hosts[..i], hosts, k) ==>
                    k in distanceTable.entries && distanceTable.entries[k] == Inf
        invariant forall k :: !Marked(hostName, neighbors, hosts[..i], hosts, k) ==>
                    SameAt(distanceTable.entries, t0, k)
      {
        var dest := hosts[i];
        MarkedPrefix(hostName, neighbors, hosts, i);
        if !(dest == hostName || dest in neighbors) {
          for j := 0 to |hosts|
            invariant knownHosts == hosts
            invariant forall k :: Marked(hostName, neighbors, hosts[..i], hosts, k) || Marked(hostName, neighbors, [dest], hosts[..j], k) ==>
                        k in distanceTable.entries && distanceTable.entries[k] == Inf
            invariant forall k :: !(Marked(hostName, neighbors, hosts[..i], hosts, k) || Marked(hostName, neighbors, [dest], hosts[..j], k)) ==>
                        SameAt(distanceTable.entries, t0, k)
          {
            var via := hosts[j];
            assert hosts[..j + 1] == hosts[..j] + [via];
            if via != hostName {
              distanceTable.entries := distanceTable.entries[PairKey(dest, via) := Inf];
            }
          }
          assert hosts[..|hosts|] == hosts;
        }
      }
      assert hosts[..|hosts|] == hosts;
    }

    /**
     * One update step. Every entry (dest, n) with dest a known host other
     * than self and n a neighbour is visited, and takes the offer of n when
     * that is strictly lower. The result says whether an entry went down.
     */
    method Recalculate() returns (changed: bool)
      requires CanRecalculate(distanceTable.entries, neighborTables, hostName, knownHosts, neighbors)
      modifies distanceTable
      ensures distanceTable.entries == RelaxAll(old(distanceTable.entries), neighborTables, Visits(hostName, knownHosts, neighbors))
      ensures NoneAbove(old(distanceTable.entries), distanceTable.entries)
      ensures changed <==> Decreased(old(distanceTable.entries), distanceTable.entries)
    {
      changed := false;
      ghost var t0 := distanceTable.entries;
      for i := 0 to |knownHosts|
        invariant distanceTable.entries == RelaxAll(t0, neighborTables, Visits(hostName, knownHosts[..i], neighbors))
        invariant t0.Keys <= distanceTable.entries.Keys
        invariant NoneAbove(t0, distanceTable.entries)
        invariant changed <==> Decreased(t0, distanceTable.entries)
      {
        VisitsPrefix(hostName, knownHosts, neighbors, i);
        if knownHosts[i] != hostName {
          var lowered := RecalculateRow(i, t0, Visits(hostName, knownHosts[..i], neighbors));
          changed := changed || lowered;
        } else {
          assert Visits(hostName, knownHosts[..i], neighbors) + [] == Visits(hostName, knownHosts[..i], neighbors);
        }
      }
      assert knownHosts[..|knownHosts|] == knownHosts;
    }

    /**
     * The inner loop of recalculate for the known host knownHosts[i]: the
     * entries visited so far are `done`, starting from the table `t0`.
     */
    method RecalculateRow(i: nat, ghost t0: Table, ghost done: seq<PairKey>) returns (lowered: bool)
      requires i < |knownHosts| && knownHosts[i] != hostName
      requires CanRecalculate(t0, neighborTables, hostName, knownHosts, neighbors)
      requires distanceTable.entries == RelaxAll(t0, neighborTables, done)
      requires t0.Keys <= distanceTable.entries.Keys
      requires NoneAbove(t0, distanceTable.entries)
      modifies distanceTable
      ensures distanceTable.entries == RelaxAll(t0, neighborTables, done + Row(knownHosts[i], neighbors))
      ensures t0.Keys <= distanceTable.entries.Keys
      ensures NoneAbove(t0, distanceTable.entries)
      ensures Decreased(t0, distanceTable.entries) <==> Decreased(t0, old(distanceTable.entries)) || lowered
    {
      var dest := knownHosts[i];
      lowered := false;
      ghost var decreasedBefore := Decreased(t0, distanceTable.entries);
      ghost var visited := done;
      assert done + Row(dest, neighbors[..0]) == done;
      for j := 0 to |neighbors|
        invariant visited == done + Row(dest, neighbors[..j])
        invariant distanceTable.entries == RelaxAll(t0, neighborTables, visited)
        invariant t0.Keys <= distanceTable.entries.Keys
        invariant NoneAbove(t0, distanceTable.entries)
        invariant Decreased(t0, distanceTable.entries) <==> decreasedBefore || lowered
      {
        var neighbor := neighbors[j];
        RowStep(done, dest, neighbors, j);
        RelaxAllSnoc(t0, neighborTables, visited, PairKey(dest, neighbor));
        CanRecalculateAt(t0, neighborTables, hostName, knownHosts, neighbors, i, j);
        ghost var before := distanceTable.entries;
        var relaxed := RelaxEntry(dest, neighbor);
        RelaxLowers(t0, before, neighborTables, PairKey(dest, neighbor));
        lowered := lowered || relaxed;
        visited := visited + [PairKey(dest, neighbor)];
      }
      assert neighbors[..|neighbors|] == neighbors;
    }

    /** The inner loop body of recalculate for the entry (dest, neighbor). */
    method RelaxEntry(dest: string, neighbor: string) returns (lowered: bool)
      requires PairKey(neighbor, neighbor) in distanceTable.entries
      requires dest != neighbor ==> neighbor in neighborTables && dest in neighborTables[neighbor]
      modifies distanceTable
      ensures distanceTable.entries == Relax(old(distanceTable.entries), neighborTables, PairKey(dest, neighbor))
      ensures lowered <==> distanceTable.entries != old(distanceTable.entries)
    {
      var oldDistance := Inf;
      if PairKey(dest, neighbor) in distanceTable.entries {
        oldDistance := distanceTable.entries[PairKey(dest, neighbor)];
      }
      var distToNeighbor := distanceTable.entries[PairKey(neighbor, neighbor)];
      var newDist := distToNeighbor;
      if dest != neighbor {
        newDist := Add(newDist, neighborTables[neighbor][dest].value);
      }
      lowered := false;
      if Less(newDist, oldDistance) {
        ghost var t := distanceTable.entries;
        distanceTable.entries := distanceTable.entries[PairKey(dest, neighbor) := newDist];
        assert distanceTable.entries[PairKey(dest, neighbor)] == newDist;
        assert PairKey(dest, neighbor) in t ==> t[PairKey(dest, neighbor)] != newDist;
        lowered := true;
      }
    }

    /**
     * Stores `table` as the latest table of `neighbor`. The result compares
     * it with the table it replaces, as TableChanged says.
     */
    method PutNeighborTable(neighbor: string, table: MinimumDistanceTable) returns (changed: bool)
      modifies this`neighborTables
      ensures neighborTables == old(neighborTables)[neighbor := table]
      ensures changed <==> TableChanged(if neighbor in old(neighborTables) then Some(old(neighborTables)[neighbor]) else None,
                                        table, hostName, knownHosts)
    {
      changed := false;
      var previous := if neighbor in neighborTables then Some(neighborTables[neighbor]) else None;
      var i := 0;
      while i < |knownHosts|
        invariant 0 <= i <= |knownHosts|
        invariant !changed
        invariant forall j :: 0 <= j < i && knownHosts[j] != hostName ==>
                    previous.Some? && Lookup(table, knownHosts[j]) == Lookup(previous.value, knownHosts[j])
      {
        var dest := knownHosts[i];
        if dest != hostName {
          if previous.None? || Lookup(table, dest) != Lookup(previous.value, dest) {
            changed := true;
            break;
          }
        }
        i := i + 1;
      }
      neighborTables := neighborTables[neighbor := table];
    }
  }

  /** A visit never raises an entry, and it lowers one exactly when it changes the table. */
  lemma RelaxLowers(t0: Table, t: Table, tables: map<string, MinimumDistanceTable>, k: PairKey)
    requires NoneAbove(t0, t)
    ensures t.Keys <= Relax(t, tables, k).Keys
    ensures NoneAbove(t0, Relax(t, tables, k))
    ensures Decreased(t0, Relax(t, tables, k)) <==> Decreased(t0, t) || Relax(t, tables, k) != t
  {
    var r := Relax(t, tables, k);
    forall x
      ensures AtMost(Via(r, x), Via(t, x))
    {
    }
    if r != t {
      assert Less(Via(r, k), Via(t0, k));
    }
    if Decreased(t0, t) {
      var x :| Less(Via(t, x), Via(t0, x));
      assert Less(Via(r, x), Via(t0, x));
    }
  }

  /** An entry that is never visited keeps what it had. */
  lemma {:induction false} RelaxAllFrame(t: Table, tables: map<string, MinimumDistanceTable>, vs: seq<PairKey>, k: PairKey)
    requires k !in vs
    ensures SameAt(RelaxAll(t, tables, vs), t, k)
    decreases |vs|
  {
    if vs != [] {
      var p := vs[..|vs| - 1];
      assert vs == p + [vs[|vs| - 1]];
      RelaxAllFrame(t, tables, p, k);
    }
  }

  /** A link entry (x, x) is never changed: its offer is the entry itself. */
  lemma {:induction false} RelaxAllDiagonal(t: Table, tables: map<string, MinimumDistanceTable>, vs: seq<PairKey>, x: string)
    ensures SameAt(RelaxAll(t, tables, vs), t, PairKey(x, x))
    decreases |vs|
  {
    if vs != [] {
      var p := vs[..|vs| - 1];
      RelaxAllDiagonal(t, tables, p, x);
      var r := RelaxAll(t, tables, p);
      assert Offer(r, tables, x, x) == Via(r, PairKey(x, x));
    }
  }

  /** A visited entry ends as the lower of its old value and its offer, however often it is visited. */
  lemma {:induction false} RelaxAllValue(t: Table, tables: map<string, MinimumDistanceTable>, vs: seq<PairKey>, k: PairKey)
    requires k in vs
    ensures Via(RelaxAll(t, tables, vs), k) == Min(Via(t, k), Offer(t, tables, k.dest, k.neighbor))
    decreases |vs|
  {
    var p, v := vs[..|vs| - 1], vs[|vs| - 1];
    assert vs == p + [v];
    var r := RelaxAll(t, tables, p);
    RelaxAllDiagonal(t, tables, p, k.neighbor);
    assert Offer(r, tables, k.dest, k.neighbor) == Offer(t, tables, k.dest, k.neighbor);
    if k in p {
      RelaxAllValue(t, tables, p, k);
    } else {
      RelaxAllFrame(t, tables, p, k);
    }
  }

  /** recalculate visits exactly the entries (dest, n) with dest a known host other than self and n a neighbour. */
  lemma {:induction false} VisitsMember(self: string, ds: seq<string>, ns: seq<string>, k: PairKey)
    ensures k in Visits(self, ds, ns) <==> k.dest in ds && k.dest != self && k.neighbor in ns
    decreases |ds|
  {
    if ds != [] {
      var p, d := ds[..|ds| - 1], ds[|ds| - 1];
      assert ds == p + [d];
      VisitsMember(self, p, ns, k);
      if d != self {
        assert k in Row(d, ns) <==> k.dest == d && k.neighbor in ns;
      }
    }
  }

  /** recalculate leaves alone every entry whose destination is self or unknown, or whose neighbour is not a neighbour. */
  lemma RecalculateKeepsOthers(t: Table, tables: map<string, MinimumDistanceTable>, self: string,
                               ds: seq<string>, ns: seq<string>, k: PairKey)
    requires !(k.dest in ds && k.dest != self && k.neighbor in ns)
    ensures SameAt(RelaxAll(t, tables, Visits(self, ds, ns)), t, k)
  {
    VisitsMember(self, ds, ns, k);
    RelaxAllFrame(t, tables, Visits(self, ds, ns), k);
  }

  /**
   * After recalculate, the entry (dest, n) is the lower of what it was
   * (infinity if missing) and d(n, n) plus n's distance to dest, or d(n, n)
   * alone when dest is n.
   */
  lemma RecalculateEntry(t: Table, tables: map<string, MinimumDistanceTable>, self: string,
                         ds: seq<string>, ns: seq<string>, dest: string, n: string)
    requires CanRecalculate(t, tables, self, ds, ns)
    requires dest in ds && dest != self && n in ns
    ensures PairKey(n, n) in t && (dest != n ==> n in tables && dest in tables[n])
    ensures Via(RelaxAll(t, tables, Visits(self, ds, ns)), PairKey(dest, n)) ==
              Min(Via(t, PairKey(dest, n)), Add(t[PairKey(n, n)], if dest == n then Fin(0) else tables[n][dest].value))
  {
    var i :| 0 <= i < |ds| && ds[i] == dest;
    var j :| 0 <= j < |ns| && ns[j] == n;
    CanRecalculateAt(t, tables, self, ds, ns, i, j);
    VisitsMember(self, ds, ns, PairKey(dest, n));
    RelaxAllValue(t, tables, Visits(self, ds, ns), PairKey(dest, n));
  }

  /**
   * With the same neighbour tables, a second recalculate changes nothing
   * and so returns false: every visited entry already holds its offer or less.
   */
  lemma RecalculateIdempotent(t: Table, tables: map<string, MinimumDistanceTable>, vs: seq<PairKey>)
    ensures !Decreased(RelaxAll(t, tables, vs), RelaxAll(RelaxAll(t, tables, vs), tables, vs))
  {
    var r := RelaxAll(t, tables, vs);
    var rr := RelaxAll(r, tables, vs);
    forall k
      ensures Via(rr, k) == Via(r, k)
    {
      if k in vs {
        RelaxAllValue(t, tables, vs, k);
        RelaxAllValue(r, tables, vs, k);
        RelaxAllDiagonal(t, tables, vs, k.neighbor);
        assert Offer(r, tables, k.dest, k.neighbor) == Offer(t, tables, k.dest, k.neighbor);
      } else {
        RelaxAllFrame(r, tables, vs, k);
      }
    }
  }

  /**
   * Boxes are compared by identity: when the new table shares no box with
   * the previous one, putNeighborTable reports a change as soon as some
   * known host other than self has an entry in either table, whatever the
   * distances are.
   */
  lemma FreshBoxesAlwaysChange(previous: MinimumDistanceTable, table: MinimumDistanceTable,
                               self: string, known: seq<string>)
    requires forall d, e :: d in table && e in previous ==> table[d] != previous[e]
    ensures TableChanged(Some(previous), table, self, known) <==>
              exists i :: 0 <= i < |known| && known[i] != self && (known[i] in table || known[i] in previous)
  {
    if exists i :: 0 <= i < |known| && known[i] != self && (known[i] in table || known[i] in previous) {
      var i :| 0 <= i < |known| && known[i] != self && (known[i] in table || known[i] in previous);
      assert Lookup(table, known[i]) != Lookup(previous, known[i]);
    }
  }

  lemma CanRecalculateAt(t: Table, tables: map<string, MinimumDistanceTable>, self: string,
                         ds: seq<string>, ns: seq<string>, i: nat, j: nat)
    requires CanRecalculate(t, tables, self, ds, ns)
    requires i < |ds| && j < |ns| && ds[i] != self
    ensures PairKey(ns[j], ns[j]) in t
    ensures ds[i] != ns[j] ==> ns[j] in tables && ds[i] in tables[ns[j]]
  {
  }

  lemma MarkedPrefix(self: string, neighbors: seq<string>, hosts: seq<string>, i: nat)
    requires i < |hosts|
    ensures forall k :: Marked(self, neighbors, hosts[..i + 1], hosts, k) <==>
              Marked(self, neighbors, hosts[..i], hosts, k) || Marked(self, neighbors, [hosts[i]], hosts, k)
  {
    assert hosts[..i + 1] == hosts[..i] + [hosts[i]];
  }

  lemma VisitsPrefix(self: string, ds: seq<string>, ns: seq<string>, i: nat)
    requires i < |ds|
    ensures Visits(self, ds[..i + 1], ns) ==
              Visits(self, ds[..i], ns) + (if ds[i] == self then [] else Row(ds[i], ns))
  {
    assert ds[..i + 1][..i] == ds[..i];
  }

  lemma RowStep(done: seq<PairKey>, dest: string, ns: seq<string>, j: nat)
    requires j < |ns|
    ensures (done + Row(dest, ns[..j])) + [PairKey(dest, ns[j])] == done + Row(dest, ns[..j + 1])
  {
    assert Row(dest, ns[..j + 1]) == Row(dest, ns[..j]) + [PairKey(dest, ns[j])];
  }

  lemma RelaxAllSnoc(t: Table, tables: map<string, MinimumDistanceTable>, vs: seq<PairKey>, v: PairKey)
    ensures RelaxAll(t, tables, vs + [v]) == Relax(RelaxAll(t, tables, vs), tables, v)
  {
    assert (vs + [v])[..|vs|] == vs;
  }
}
