/**
 * The PHP string primitives the datasource relies on: integer-to-string
 * conversion, `explode` followed by `current`, `trim` with a character list
 * of one character, and joining with a separator.
 */
module PhpStrings {

  predicate IsDigit(c: char)
  {
    '0' <= c <= '9'
  }

  function Digit(d: nat): (c: char)
    requires d < 10
    ensures IsDigit(c)
  {
    ('0' as int + d) as char
  }

  /** The decimal text of a natural number: digits only, no leading zero. */
  function NatToDecimal(n: nat): (s: string)
    ensures |s| > 0
    ensures forall i :: 0 <= i < |s| ==> IsDigit(s[i])
    ensures |s| > 1 ==> s[0] != '0'
    decreases n
  {
    if n < 10 then [Digit(n)] else NatToDecimal(n / 10) + [Digit(n % 10)]
  }

  /** How PHP writes an integer as a string: a minus sign, then the digits of its magnitude. */
  function IntToDecimal(i: int): (s: string)
    ensures |s| > 0
    ensures forall j :: 0 <= j < |s| ==> IsDigit(s[j]) || (j == 0 && s[j] == '-')
  {
    if i < 0 then "-" + NatToDecimal(-i) else NatToDecimal(i)
  }

  predicate AllDigits(s: string)
  {
    forall i :: 0 <= i < |s| ==> IsDigit(s[i])
  }

  /** The reading of a digit string, as an independent reference for NatToDecimal. */
  function ParseDecimal(s: string): nat
    requires forall i :: 0 <= i < |s| ==> IsDigit(s[i])
  {
    if s == [] then 0
    else ParseDecimal(s[..|s| - 1]) * 10 + DigitValue(s[|s| - 1])
  }

  function DigitValue(c: char): nat
    requires IsDigit(c)
  {
    c as int - '0' as int
  }

  /** Reading the decimal text back gives the number again. */
  lemma {:induction false} DecimalRoundTrip(n: nat)
    ensures ParseDecimal(NatToDecimal(n)) == n
    decreases n
  {
    if n >= 10 {
      var m: nat := n / 10;
      var s := NatToDecimal(n);
      assert s == NatToDecimal(m) + [Digit(n % 10)];
      assert s[..|s| - 1] == NatToDecimal(m);
      DecimalRoundTrip(m);
    }
  }

  /** Signed version of the round trip. */
  lemma IntDecimalRoundTrip(i: int)
    ensures var s := IntToDecimal(i);
      if s[0] == '-' then |s| > 1 && ParseDecimal(s[1..]) == -i && i < 0
      else ParseDecimal(s) == i
  {
    var s := IntToDecimal(i);
    if i < 0 {
      NegativeDecimal(i, s);
    } else {
      DecimalRoundTrip(i);
      assert IsDigit(s[0]);
    }
  }

  /** A negative number is written as `-` and the digits of its magnitude. */
  lemma NegativeDecimal(i: int, s: string)
    requires i < 0 && s == IntToDecimal(i)
    ensures s[0] == '-' && |s| > 1 && AllDigits(s[1..]) && ParseDecimal(s[1..]) == -i
  {
    var n: nat := -i;
    var d := NatToDecimal(n);
    DecimalRoundTrip(n);
    assert s == "-" + d;
    assert s[1..] == d;
  }

  /** `current(explode(c, s))`: everything before the first `c`, or all of `s` when there is none. */
  function BeforeFirst(s: string, c: char): (r: string)
    ensures r <= s
    ensures c !in r
    ensures r == s || s[|r|] == c
  {
    if s == [] || s[0] == c then [] else [s[0]] + BeforeFirst(s[1..], c)
  }

  /** `ltrim(s, c)`. */
  function TrimLeft(s: string, c: char): (r: string)
    ensures |r| <= |s| && r == s[|s| - |r|..]
    ensures forall i :: 0 <= i < |s| - |r| ==> s[i] == c
    ensures r != [] ==> r[0] != c
  {
    if s != [] && s[0] == c then
      var r := TrimLeft(s[1..], c);
      assert s[1..][|s| - 1 - |r|..] == s[|s| - |r|..];
      assert forall i :: 1 <= i < |s| ==> s[i] == s[1..][i - 1];
      r
    else s
  }

  /** `rtrim(s, c)`. */
  function TrimRight(s: string, c: char): (r: string)
    ensures |r| <= |s| && r == s[..|r|]
    ensures forall i :: |r| <= i < |s| ==> s[i] == c
    ensures r != [] ==> r[|r| - 1] != c
  {
    if s != [] && s[|s| - 1] == c then
      var r := TrimRight(s[..|s| - 1], c);
      assert s[..|s| - 1][..|r|] == s[..|r|];
      assert forall i :: 0 <= i < |s| - 1 ==> s[i] == s[..|s| - 1][i];
      r
    else s
  }

  /**
   * `r` is what is left of `s` once a run of `c` is cut from its front (the
   * first `a` characters) and another from its back.
   */
  predicate StrippedAt(s: string, c: char, r: string, a: int)
  {
    && 0 <= a && a + |r| <= |s|
    && r == s[a..a + |r|]
    && (forall i :: 0 <= i < a ==> s[i] == c)
    && (forall i :: a + |r| <= i < |s| ==> s[i] == c)
  }

  /**
   * What `trim(s, c)` promises of its result `r`: it is the part of `s`
   * between a leading and a trailing run of `c`, it neither starts nor ends
   * with `c`, it is empty exactly when `s` consists of `c` only, and it is
   * `s` itself when `s` neither starts nor ends with `c`.
   */
  ghost predicate Trimmed(s: string, c: char, r: string)
  {
    && (exists a :: StrippedAt(s, c, r, a))
    && (r != [] ==> r[0] != c && r[|r| - 1] != c)
    && (forall x :: x in r ==> x in s)
    && (r == [] <==> forall i :: 0 <= i < |s| ==> s[i] == c)
    && (s != [] && s[0] != c && s[|s| - 1] != c ==> r == s)
  }

  /** `trim(s, c)`: strip every leading and trailing `c`. */
  function Trim(s: string, c: char): (r: string)
    ensures Trimmed(s, c, r)
  {
    TrimFacts(s, c, TrimRight(TrimLeft(s, c), c));
    TrimRight(TrimLeft(s, c), c)
  }

  /** TrimLeft followed by TrimRight does what Trim promises. */
  lemma TrimFacts(s: string, c: char, r: string)
    requires r == TrimRight(TrimLeft(s, c), c)
    ensures Trimmed(s, c, r)
  {
    var a := |s| - |TrimLeft(s, c)|;
    TrimSlice(s, c);
    StrippedCharacters(s, c, r, a);
    TrimEmpty(s, c);
    TrimEnds(s, c, r);
    TrimUntouched(s, c);
  }

  /** A string that neither starts nor ends with `c` is left as it is. */
  lemma TrimUntouched(s: string, c: char)
    ensures s != [] && s[0] != c && s[|s| - 1] != c ==> TrimRight(TrimLeft(s, c), c) == s
  {
  }

  /** After trimming, neither end is `c`. */
  lemma TrimEnds(s: string, c: char, r: string)
    requires r == TrimRight(TrimLeft(s, c), c)
    ensures r != [] ==> r[0] != c && r[|r| - 1] != c
  {
    var l := TrimLeft(s, c);
    if r != [] {
      assert r[0] == l[0];
    }
  }

  /** TrimLeft then TrimRight cut a run of `c` from each end, and nothing else. */
  lemma TrimSlice(s: string, c: char)
    ensures StrippedAt(s, c, TrimRight(TrimLeft(s, c), c), |s| - |TrimLeft(s, c)|)
  {
    var l := TrimLeft(s, c);
    var r := TrimRight(l, c);
    StrippedTwice(s, c, l, r);
  }

  /** A leading run cut off `s` to give `l`, then a trailing run cut off `l` to give `r`. */
  lemma StrippedTwice(s: string, c: char, l: string, r: string)
    requires |l| <= |s| && l == s[|s| - |l|..]
    requires forall i :: 0 <= i < |s| - |l| ==> s[i] == c
    requires |r| <= |l| && r == l[..|r|]
    requires forall i :: |r| <= i < |l| ==> l[i] == c
    ensures StrippedAt(s, c, r, |s| - |l|)
  {
    var a := |s| - |l|;
    assert r == s[a..a + |r|];
    forall i | a + |r| <= i < |s| ensures s[i] == c {
      assert s[i] == l[i - a];
    }
  }

  /** Every character of a stripped string is a character of the original. */
  lemma StrippedCharacters(s: string, c: char, r: string, a: int)
    requires StrippedAt(s, c, r, a)
    ensures forall x :: x in r ==> x in s
  {
    forall x | x in r ensures x in s {
      var i :| 0 <= i < |r| && r[i] == x;
      assert s[a + i] == x;
    }
  }

  lemma TrimEmpty(s: string, c: char)
    ensures TrimRight(TrimLeft(s, c), c) == [] <==> forall i :: 0 <= i < |s| ==> s[i] == c
  {
    var l := TrimLeft(s, c);
    var r := TrimRight(l, c);
    if r == [] {
      assert l == [];
    } else {
      assert s[|s| - |l|] == l[0] == r[0] != c;
    }
  }

  /** The parts separated by `sep`; the empty list gives the empty string. */
  function Join(parts: seq<string>, sep: string): string
  {
    if parts == [] then ""
    else if |parts| == 1 then parts[0]
    else parts[0] + sep + Join(parts[1..], sep)
  }
}
