/**
 * The pieces of java.lang.String and java.lang.Integer that the transport
 * codec relies on: blank padding, Integer.toString, Integer.parseInt,
 * String.trim, and the additive character-code checksum.
 * Characters are single-byte text; a frame is a `string` (seq<char>).
 */
module Text {

  datatype Option<+T> = None | Some(value: T)

  /** `n` blank characters. */
  function Blanks(n: nat): (r: string)
    ensures |r| == n
  {
    seq(n, _ => ' ')
  }

  predicate IsDigit(c: char) { '0' <= c <= '9' }

  predicate AllDigits(s: string) { forall i :: 0 <= i < |s| ==> IsDigit(s[i]) }

  predicate IsAscii(s: string) { forall i :: 0 <= i < |s| ==> s[i] as int < 128 }

  function DigitChar(d: nat): (c: char)
    requires d < 10
    ensures IsDigit(c)
  {
    ('0' as int + d) as char
  }

  function DigitValue(c: char): (d: nat)
    requires IsDigit(c)
    ensures d < 10
  {
    c as int - '0' as int
  }

  function Pow10(k: nat): (p: nat)
    ensures p >= 1
  {
    if k == 0 then 1 else 10 * Pow10(k - 1)
  }

  /** Decimal digits of `n` without leading zeros ("0" for zero). */
  function NatToDigits(n: nat): (r: string)
    ensures |r| >= 1 && AllDigits(r) && IsAscii(r)
    decreases n
  {
    if n < 10 then [DigitChar(n)] else NatToDigits(n / 10) + [DigitChar(n % 10)]
  }

  /** The value of a string of decimal digits, most significant first. */
  function DigitsValue(s: string): nat
    requires AllDigits(s)
    decreases |s|
  {
    if s == [] then 0 else DigitsValue(s[..|s| - 1]) * 10 + DigitValue(s[|s| - 1])
  }

  /** Integer.toString: a minus sign for negative values, then the digits. */
  function IntToString(v: int): (r: string)
    ensures |r| >= 1 && IsAscii(r)
    ensures r[0] == '-' || IsDigit(r[0])
    ensures IsDigit(r[|r| - 1])
  {
    if v < 0 then "-" + NatToDigits(-v) else NatToDigits(v)
  }

  /**
   * Integer.parseInt on ASCII text: an optional '+' or '-' followed by at
   * least one decimal digit. Every field this model parses is at most five
   * characters long, so Java's overflow error cannot arise.
   */
  function ParseInt(s: string): (r: Option<int>)
    ensures r.Some? ==> |s| >= 1
    ensures AllDigits(s) && |s| >= 1 ==> r == Some(DigitsValue(s) as int)
  {
    if |s| >= 2 && (s[0] == '-' || s[0] == '+') && AllDigits(s[1..]) then
      Some(if s[0] == '-' then -(DigitsValue(s[1..]) as int) else DigitsValue(s[1..]) as int)
    else if |s| >= 1 && AllDigits(s) then
      Some(DigitsValue(s) as int)
    else
      None
  }

  /** String.trim drops leading characters whose code is at most that of ' '. */
  function TrimStart(s: string): (r: string)
    ensures |r| <= |s| && r == s[|s| - |r|..]
    ensures r == [] || r[0] > ' '
    ensures forall i :: 0 <= i < |s| - |r| ==> s[i] <= ' '
    decreases |s|
  {
    if |s| > 0 && s[0] <= ' ' then TrimStart(s[1..]) else s
  }

  /** String.trim drops trailing characters whose code is at most that of ' '. */
  function TrimEnd(s: string): (r: string)
    ensures |r| <= |s| && r == s[..|r|]
    ensures r == [] || r[|r| - 1] > ' '
    ensures forall i :: |r| <= i < |s| ==> s[i] <= ' '
    decreases |s|
  {
    if |s| > 0 && s[|s| - 1] <= ' ' then TrimEnd(s[..|s| - 1]) else s
  }

  function Trim(s: string): (r: string)
    ensures r == [] || (r[0] > ' ' && r[|r| - 1] > ' ')
  {
    TrimEnd(TrimStart(s))
  }

  /** Sum of the character codes of `s`, accumulated left to right. */
  function Sum(s: string): (r: int)
    ensures r >= 0
    decreases |s|
  {
    if s == [] then 0 else Sum(s[..|s| - 1]) + s[|s| - 1] as int
  }

  // ---------------------------------------------------------------------
  // Lemmas

  lemma BlanksPrepend(k: nat, t: string)
    ensures " " + (Blanks(k) + t) == Blanks(k + 1) + t
  {
  }

  lemma BlanksAppend(t: string, k: nat)
    ensures t + Blanks(k) + " " == t + Blanks(k + 1)
  {
  }

  lemma NoBlanks(t: string)
    ensures Blanks(0) + t == t && t + Blanks(0) == t
  {
  }

  lemma {:induction false} DigitsRoundTrip(n: nat)
    ensures DigitsValue(NatToDigits(n)) == n
    decreases n
  {
    if n >= 10 {
      DigitsRoundTrip(n / 10);
      var s := NatToDigits(n);
      assert s[..|s| - 1] == NatToDigits(n / 10);
    }
  }

  /** Integer.parseInt inverts Integer.toString. */
  lemma ParseIntToString(v: int)
    ensures ParseInt(IntToString(v)) == Some(v)
  {
    if v < 0 {
      var n: nat := -v;
      var d := NatToDigits(n);
      DigitsRoundTrip(n);
      ParseNegative(d);
      assert IntToString(v) == "-" + d;
    } else {
      ParseDigits(NatToDigits(v));
      DigitsRoundTrip(v);
    }
  }

  lemma ParseDigits(d: string)
    requires |d| >= 1 && AllDigits(d)
    ensures ParseInt(d) == Some(DigitsValue(d) as int)
  {
  }

  lemma ParseNegative(d: string)
    requires |d| >= 1 && AllDigits(d)
    ensures ParseInt("-" + d) == Some(-(DigitsValue(d) as int))
  {
    assert ("-" + d)[1..] == d;
  }

  /** `n` has at most `k` digits exactly when it is below 10^k. */
  lemma {:induction false} DigitsLength(n: nat, k: nat)
    requires k >= 1
    ensures |NatToDigits(n)| <= k <==> n < Pow10(k)
    decreases n
  {
    if n >= 10 {
      if k == 1 {
        assert |NatToDigits(n / 10)| >= 1;
      } else {
        DigitsLength(n / 10, k - 1);
        assert Pow10(k) == 10 * Pow10(k - 1);
      }
    }
  }

  /** Integer.toString(v) fits in `w` characters exactly for -10^(w-1) < v < 10^w. */
  lemma IntToStringWidth(v: int, w: nat)
    requires w >= 1
    ensures |IntToString(v)| <= w <==> -(Pow10(w - 1) as int) < v < Pow10(w)
  {
    if v < 0 {
      if w == 1 {
        assert |IntToString(v)| >= 2;
      } else {
        DigitsLength(-v, w - 1);
        assert Pow10(w) == 10 * Pow10(w - 1);
      }
    } else {
      DigitsLength(v, w);
      if w > 1 { assert Pow10(w) == 10 * Pow10(w - 1); }
    }
  }

  /** Trimming blank padding in front of a field whose ends are visible gives the field back. */
  lemma TrimPadded(k: nat, t: string)
    requires |t| >= 1 && t[0] > ' ' && t[|t| - 1] > ' '
    ensures Trim(Blanks(k) + t) == t
  {
    TrimStartPadded(k, t);
  }

  lemma {:induction false} TrimStartPadded(k: nat, t: string)
    requires |t| >= 1 && t[0] > ' '
    ensures TrimStart(Blanks(k) + t) == t
    decreases k
  {
    var s := Blanks(k) + t;
    if k > 0 {
      assert s[0] == ' ';
      assert s[1..] == Blanks(k - 1) + t;
      TrimStartPadded(k - 1, t);
    } else {
      assert s == t;
    }
  }

  lemma {:induction false} SumAppend(a: string, b: string)
    ensures Sum(a + b) == Sum(a) + Sum(b)
    decreases |b|
  {
    if b == [] {
      assert a + b == a;
    } else {
      assert (a + b)[..|a + b| - 1] == a + b[..|b| - 1];
      SumAppend(a, b[..|b| - 1]);
    }
  }

  /** One more character of a prefix adds its code to the running sum. */
  lemma SumPrefixStep(s: string, i: nat)
    requires i < |s|
    ensures Sum(s[..i + 1]) == Sum(s[..i]) + s[i] as int
  {
    assert s[..i + 1][..i] == s[..i];
  }

  /** Replacing one character changes the checksum by the difference of the two codes. */
  lemma SumUpdate(s: string, i: nat, c: char)
    requires i < |s|
    ensures Sum(s[i := c]) == Sum(s) - s[i] as int + c as int
  {
    assert s == s[..i] + [s[i]] + s[i + 1..];
    assert s[i := c] == s[..i] + [c] + s[i + 1..];
    SumAppend(s[..i] + [s[i]], s[i + 1..]);
    SumAppend(s[..i] + [c], s[i + 1..]);
    SumAppend(s[..i], [s[i]]);
    SumAppend(s[..i], [c]);
  }

  /** Over ASCII text the checksum is at most 127 per character. */
  lemma {:induction false} SumAsciiBound(s: string)
    requires IsAscii(s)
    ensures Sum(s) <= 127 * |s|
    decreases |s|
  {
    if s != [] {
      SumAsciiBound(s[..|s| - 1]);
    }
  }
}
