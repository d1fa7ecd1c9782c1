/**
 * IPv4 addresses as the codec sees them: InetAddress.getHostAddress prints
 * an address as a dotted quad, and InetAddress.getByName turns the trimmed
 * address field of a frame back into an address. Name resolution is not
 * modelled: a field that is not a dotted quad of four decimal octets is the
 * "unknown host" case.
 */
module Inet {
  import opened Text

  type Octet = x: int | 0 <= x < 256

  datatype Address = Address(a: Octet, b: Octet, c: Octet, d: Octet)

  /** InetAddress.getHostAddress for an IPv4 address. */
  function HostAddress(ip: Address): (r: string)
    ensures 7 <= |r| <= 15 && IsAscii(r)
    ensures IsDigit(r[0]) && IsDigit(r[|r| - 1])
  {
    OctetLength(ip.a); OctetLength(ip.b); OctetLength(ip.c); OctetLength(ip.d);
    var r := NatToDigits(ip.a) + "." + (NatToDigits(ip.b) + "." + (NatToDigits(ip.c) + "." + NatToDigits(ip.d)));
    assert r[|r| - 1] == NatToDigits(ip.d)[|NatToDigits(ip.d)| - 1];
    assert forall i :: 0 <= i < |r| ==> r[i] as int < 128;
    r
  }

  /** One octet: one to three decimal digits with a value below 256. */
  function ParseOctet(s: string): (r: Option<Octet>)
    ensures r.Some? ==> 1 <= |s| <= 3 && AllDigits(s) && r.value == DigitsValue(s)
  {
    if 1 <= |s| <= 3 && AllDigits(s) && DigitsValue(s) < 256 then Some(DigitsValue(s)) else None
  }

  /** Position of the first '.' in `s`, or |s| when there is none. */
  function DotIndex(s: string): (i: nat)
    ensures i <= |s|
    ensures i < |s| ==> s[i] == '.'
    ensures forall j :: 0 <= j < i ==> s[j] != '.'
    decreases |s|
  {
    if s == [] then 0 else if s[0] == '.' then 0 else 1 + DotIndex(s[1..])
  }

  /** The pieces of `s` between dots. */
  function SplitDots(s: string): (parts: seq<string>)
    ensures |parts| >= 1
    decreases |s|
  {
    var i := DotIndex(s);
    if i == |s| then [s] else [s[..i]] + SplitDots(s[i + 1..])
  }

  /** InetAddress.getByName restricted to IPv4 literals; None is the unknown-host error. */
  function ParseAddress(s: string): Option<Address>
  {
    var parts := SplitDots(s);
    if |parts| != 4 then None
    else
      var a, b, c, d := ParseOctet(parts[0]), ParseOctet(parts[1]), ParseOctet(parts[2]), ParseOctet(parts[3]);
      if a.None? || b.None? || c.None? || d.None? then None
      else Some(Address(a.value, b.value, c.value, d.value))
  }

  lemma OctetLength(x: Octet)
    ensures 1 <= |NatToDigits(x)| <= 3
  {
    DigitsLength(x, 3);
  }

  lemma OctetRoundTrip(x: Octet)
    ensures ParseOctet(NatToDigits(x)) == Some(x)
  {
    OctetLength(x);
    DigitsRoundTrip(x);
  }

  lemma SplitAtDot(p: string, rest: string)
    requires DotFree(p)
    ensures SplitDots(p + "." + rest) == [p] + SplitDots(rest)
  {
    var s := p + "." + rest;
    DotPosition(p, rest);
    assert s[..|p|] == p;
    assert s[|p| + 1..] == rest;
  }

  lemma {:induction false} DotPosition(p: string, rest: string)
    requires DotFree(p)
    ensures DotIndex(p + "." + rest) == |p|
    decreases |p|
  {
    if p != [] {
      assert (p + "." + rest)[1..] == p[1..] + "." + rest;
      DotPosition(p[1..], rest);
    }
  }

  predicate DotFree(p: string) { forall j :: 0 <= j < |p| ==> p[j] != '.' }

  lemma DigitsDotFree(x: Octet)
    ensures DotFree(NatToDigits(x))
  {
  }

  /** The pieces of `ps` with a '.' between neighbours. */
  function JoinDots(ps: seq<string>): string
    requires |ps| >= 1
    decreases |ps|
  {
    if |ps| == 1 then ps[0] else ps[0] + "." + JoinDots(ps[1..])
  }

  /** Splitting at the dots recovers pieces that contain no dot. */
  lemma {:induction false} SplitJoin(ps: seq<string>)
    requires |ps| >= 1
    requires forall i :: 0 <= i < |ps| ==> DotFree(ps[i])
    ensures SplitDots(JoinDots(ps)) == ps
    decreases |ps|
  {
    if |ps| == 1 {
      DotIndexPrefix(ps[0]);
    } else {
      SplitJoin(ps[1..]);
      SplitAtDot(ps[0], JoinDots(ps[1..]));
      assert [ps[0]] + ps[1..] == ps;
    }
  }

  lemma {:induction false} DotIndexPrefix(p: string)
    requires DotFree(p)
    ensures DotIndex(p) == |p|
    decreases |p|
  {
    if p != [] { DotIndexPrefix(p[1..]); }
  }

  /** getByName(getHostAddress(ip)) gives `ip` back. */
  lemma ParseHostAddress(ip: Address)
    ensures ParseAddress(HostAddress(ip)) == Some(ip)
  {
    var a, b, c, d := NatToDigits(ip.a), NatToDigits(ip.b), NatToDigits(ip.c), NatToDigits(ip.d);
    DigitsDotFree(ip.a); DigitsDotFree(ip.b); DigitsDotFree(ip.c); DigitsDotFree(ip.d);
    assert JoinDots([c, d]) == c + "." + d by { assert [c, d][1..] == [d]; }
    assert JoinDots([b, c, d]) == b + "." + (c + "." + d) by { assert [b, c, d][1..] == [c, d]; }
    assert JoinDots([a, b, c, d]) == HostAddress(ip) by { assert [a, b, c, d][1..] == [b, c, d]; }
    SplitJoin([a, b, c, d]);
    OctetRoundTrip(ip.a); OctetRoundTrip(ip.b); OctetRoundTrip(ip.c); OctetRoundTrip(ip.d);
  }
}
