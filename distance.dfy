/**
 * Link costs of the distance-vector router. The source keeps them as Java
 * doubles and only ever adds them, compares them with < and >, and starts
 * from Double.POSITIVE_INFINITY; a cost here is a whole number or infinity.
 */
module Distances {
  import opened Text

  datatype Dist = Fin(cost: nat) | Inf

  /** Double addition restricted to these values: infinity absorbs. */
  function Add(a: Dist, b: Dist): (r: Dist)
    ensures r.Inf? <==> a.Inf? || b.Inf?
  {
    if a.Inf? || b.Inf? then Inf else Fin(a.cost + b.cost)
  }

  /** Double `<`: infinity is below nothing and above every finite cost. */
  predicate Less(a: Dist, b: Dist)
  {
    match (a, b)
    case (Fin(x), Fin(y)) => x < y
    case (Fin(_), Inf) => true
    case (Inf, _) => false
  }

  predicate AtMost(a: Dist, b: Dist)
  {
    !Less(b, a)
  }

  /** The smaller of two costs, the first one on a tie. */
  function Min(a: Dist, b: Dist): (r: Dist)
    ensures AtMost(r, a) && AtMost(r, b) && (r == a || r == b)
  {
    if Less(b, a) then b else a
  }

  predicate Distinct<T(==)>(s: seq<T>)
  {
    forall i, j :: 0 <= i < j < |s| ==> s[i] != s[j]
  }

  /**
   * A boxed java.lang.Double. Tables of minimum distances hold these
   * objects, and comparing two of them with != compares their identity.
   */
  class BoxedDouble {
    const value: Dist

    constructor (value: Dist)
      ensures this.value == value
    {
      this.value := value;
    }
  }

  /** A Hashtable<String, Double> of minimum distances, one box per destination. */
  type MinimumDistanceTable = map<string, BoxedDouble>

  /** Hashtable.get on such a table: the box stored for `d`, or null. */
  function Lookup(t: MinimumDistanceTable, d: string): (r: Option<BoxedDouble>)
    ensures r.Some? <==> d in t
  {
    if d in t then Some(t[d]) else None
  }
}
