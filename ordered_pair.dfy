/**
 * The key type of a distance table: a destination host name and the
 * neighbour through which it is reached. Its hashCode adds up one term per
 * character in Java `int` arithmetic, which wraps modulo 2^32.
 *
 * A Hashtable keyed by OrderedPair objects finds an entry by hashCode and
 * equals. Both depend only on the two names (HashCode and Equals below), so
 * the tables elsewhere in the model are maps over the value PairKey.
 */
module OrderedPairs {
  import opened Text

  /** The value of an OrderedPair: what equals and hashCode look at. */
  datatype PairKey = PairKey(dest: string, neighbor: string)

  const TWO_31: int := 0x8000_0000
  const TWO_32: int := 0x1_0000_0000

  /** Java's 32-bit wrap-around of an exact integer. */
  function Wrap(x: int): (r: int)
    ensures -TWO_31 <= r < TWO_31
    ensures (x - r) % TWO_32 == 0
  {
    (x + TWO_31) % TWO_32 - TWO_31
  }

  /** A Java String length fits an `int`. */
  predicate JavaLength(s: string)
  {
    |s| < TWO_31
  }

  /** The exact sum of the first k destination terms: (c + |d|) * (i + |d|) for the i-th character c. */
  function DestTerms(d: string, k: nat): int
    requires k <= |d|
  {
    if k == 0 then 0
    else DestTerms(d, k - 1) + (d[k - 1] as int + |d|) * ((k - 1) + |d|)
  }

  /**
   * The exact sum of the first k neighbour terms. The index is not advanced
   * in this loop, so every term uses the index the destination loop ended
   * with, base = |dest|.
   */
  function NeighborTerms(n: string, k: nat, base: int): int
    requires k <= |n|
  {
    if k == 0 then 0
    else NeighborTerms(n, k - 1, base) + (n[k - 1] as int + |n|) * (base + |n|)
  }

  /** The value hashCode returns for a pair with these names. */
  function PairHash(p: PairKey): (h: int)
    ensures -TWO_31 <= h < TWO_31
  {
    Wrap(DestTerms(p.dest, |p.dest|) + NeighborTerms(p.neighbor, |p.neighbor|, |p.dest|))
  }

  /** One `hash += (c + len) * (index + len)` in int arithmetic. */
  function HashStep(hash: int, c: int, len: int, index: int): int
  {
    Wrap(hash + Wrap(Wrap(c + len) * Wrap(index + len)))
  }

  class OrderedPair {
    var dest: string
    var neighbor: string

    /** The pair stores the two names it is built from. */
    constructor (dest: string, neighbor: string)
      ensures GetDest() == dest && GetNeighbor() == neighbor
    {
      this.dest := dest;
      this.neighbor := neighbor;
    }

    function GetDest(): string
      reads this
    {
      dest
    }

    function GetNeighbor(): string
      reads this
    {
      neighbor
    }

    function Key(): PairKey
      reads this
    {
      PairKey(dest, neighbor)
    }

    /** Replaces the destination and nothing else. */
    method SetDest(dest: string)
      modifies this`dest
      ensures GetDest() == dest && GetNeighbor() == old(GetNeighbor())
    {
      this.dest := dest;
    }

    /** Replaces the neighbour and nothing else. */
    method SetNeighbor(neighbor: string)
      modifies this`neighbor
      ensures GetNeighbor() == neighbor && GetDest() == old(GetDest())
    {
      this.neighbor := neighbor;
    }

    /** Two pairs are equal exactly when both names agree. */
    method Equals(other: OrderedPair) returns (b: bool)
      ensures b <==> Key() == other.Key()
    {
      b := dest == other.dest && neighbor == other.neighbor;
    }

    /** The hash, accumulated character by character with int wrap-around. */
    method HashCode() returns (hash: int)
      requires JavaLength(dest) && JavaLength(neighbor)
      ensures hash == PairHash(Key())
    {
      hash := 0;
      var index := 0;
      for i := 0 to |dest|
        invariant index == i
        invariant hash == Wrap(DestTerms(dest, i))
      {
        DestStep(dest, i);
        hash := HashStep(hash, dest[i] as int, |dest|, index);
        WrapSmall(index + 1);
        index := Wrap(index + 1);
      }
      for i := 0 to |neighbor|
        invariant hash == Wrap(DestTerms(dest, |dest|) + NeighborTerms(neighbor, i, |dest|))
      {
        NeighborStep(DestTerms(dest, |dest|), neighbor, i, |dest|);
        hash := HashStep(hash, neighbor[i] as int, |neighbor|, index);
      }
    }
  }

  /** Wrapping after every operation gives the wrap of the exact result. */
  lemma WrapStep(e: int, x: int, y: int)
    ensures Wrap(Wrap(e) + Wrap(Wrap(x) * Wrap(y))) == Wrap(e + x * y)
  {
    WrapMul(x, y);
    WrapAdd(e, x * y);
  }

  lemma DestStep(d: string, i: nat)
    requires i < |d|
    ensures HashStep(Wrap(DestTerms(d, i)), d[i] as int, |d|, i) == Wrap(DestTerms(d, i + 1))
  {
    WrapStep(DestTerms(d, i), d[i] as int + |d|, i + |d|);
  }

  lemma NeighborStep(e: int, n: string, i: nat, base: int)
    requires i < |n|
    ensures HashStep(Wrap(e + NeighborTerms(n, i, base)), n[i] as int, |n|, base)
         == Wrap(e + NeighborTerms(n, i + 1, base))
  {
    WrapStep(e + NeighborTerms(n, i, base), n[i] as int + |n|, base + |n|);
  }

  lemma WrapSmall(x: int)
    requires -TWO_31 <= x < TWO_31
    ensures Wrap(x) == x
  {
  }

  lemma WrapCongruent(a: int, b: int)
    requires (a - b) % TWO_32 == 0
    ensures Wrap(a) == Wrap(b)
  {
    var k := (a - b) / TWO_32;
    assert a == b + TWO_32 * k;
    assert (a + TWO_31) == (b + TWO_31) + TWO_32 * k;
  }

  lemma WrapAdd(a: int, b: int)
    ensures Wrap(Wrap(a) + Wrap(b)) == Wrap(a + b)
  {
    var p := (a - Wrap(a)) / TWO_32;
    var q := (b - Wrap(b)) / TWO_32;
    assert a + b - (Wrap(a) + Wrap(b)) == TWO_32 * (p + q);
    WrapCongruent(Wrap(a) + Wrap(b), a + b);
  }

  lemma WrapMul(a: int, b: int)
    ensures Wrap(Wrap(a) * Wrap(b)) == Wrap(a * b)
  {
    var wa, wb := Wrap(a), Wrap(b);
    var p := (a - wa) / TWO_32;
    var q := (b - wb) / TWO_32;
    assert a == wa + TWO_32 * p;
    assert b == wb + TWO_32 * q;
    assert a * b == (wa + TWO_32 * p) * b;
    assert (wa + TWO_32 * p) * b == wa * b + TWO_32 * (p * b);
    assert wa * b == wa * wb + TWO_32 * (wa * q);
    assert a * b - wa * wb == TWO_32 * (p * b + wa * q);
    WrapCongruent(wa * wb, a * b);
  }

  /** Each neighbour character contributes (c + |n|) times the same factor. */
  lemma {:induction false} NeighborClosedForm(n: string, k: nat, base: int)
    requires k <= |n|
    ensures NeighborTerms(n, k, base) == (base + |n|) * (Sum(n[..k]) + k * |n|)
  {
    if k > 0 {
      NeighborClosedForm(n, k - 1, base);
      assert n[..k][..k - 1] == n[..k - 1];
      var f, a, c, len := base + |n|, Sum(n[..k - 1]), n[k - 1] as int, |n|;
      assert Sum(n[..k]) == a + c;
      Distribute(f, a + (k - 1) * len, c + len);
      assert (k - 1) * len + len == k * len;
    }
  }

  lemma Distribute(f: int, x: int, y: int)
    ensures f * x + y * f == f * (x + y)
  {
  }

  /** The character sum of a string depends only on its multiset of characters. */
  lemma {:induction false} SumPermutation(s: string, t: string)
    requires multiset(s) == multiset(t)
    ensures Sum(s) == Sum(t)
    decreases |s|
  {
    assert |s| == |multiset(s)| == |t|;
    if s != [] {
      var c := s[|s| - 1];
      assert c in multiset(t);
      var i :| 0 <= i < |t| && t[i] == c;
      MultisetRemove(s, |s| - 1);
      MultisetRemove(t, i);
      assert s[..|s| - 1] + s[|s|..] == s[..|s| - 1];
      assert multiset(s[..|s| - 1]) == multiset(s) - multiset{c};
      assert multiset(t[..i] + t[i + 1..]) == multiset(t) - multiset{c};
      SumPermutation(s[..|s| - 1], t[..i] + t[i + 1..]);
      SumRemove(t, i);
      SumPrefixStep(s, |s| - 1);
    }
  }

  lemma MultisetRemove(t: string, i: nat)
    requires i < |t|
    ensures multiset(t) == multiset(t[..i] + t[i + 1..]) + multiset{t[i]}
  {
    assert t == t[..i] + [t[i]] + t[i + 1..];
  }

  lemma SumRemove(t: string, i: nat)
    requires i < |t|
    ensures Sum(t) == Sum(t[..i] + t[i + 1..]) + t[i] as int
  {
    var front, c, back := t[..i], t[i], t[i + 1..];
    assert t == front + ([c] + back);
    SumAppend(front, [c] + back);
    SumAppend([c], back);
    SumAppend(front, back);
    assert Sum([c]) == c as int;
  }

  /**
   * Reordering the characters of the neighbour name never changes the hash,
   * because the neighbour loop multiplies every character by one factor.
   */
  lemma NeighborOrderIgnored(dest: string, n1: string, n2: string)
    requires multiset(n1) == multiset(n2)
    ensures PairHash(PairKey(dest, n1)) == PairHash(PairKey(dest, n2))
  {
    assert |n1| == |multiset(n1)| == |n2|;
    assert n1[..|n1|] == n1;
    assert n2[..|n2|] == n2;
    NeighborClosedForm(n1, |n1|, |dest|);
    NeighborClosedForm(n2, |n2|, |dest|);
    SumPermutation(n1, n2);
  }

  /** The destination loop does advance the index, so there the order of characters matters. */
  lemma DestOrderMatters()
    ensures PairHash(PairKey("ab", "")) != PairHash(PairKey("ba", ""))
  {
    assert DestTerms("ab", 2) == ('a' as int + 2) * 2 + ('b' as int + 2) * 3;
    assert DestTerms("ba", 2) == ('b' as int + 2) * 2 + ('a' as int + 2) * 3;
  }
}
