/**
 Character-level helpers: the decimal text JavaScript prints for a
 non-negative integer, and the split of a string at its '.' characters.
 */
module Text {

  predicate IsDigit(c: char) {
    '0' <= c <= '9'
  }

  predicate AllDigits(s: string) {
    forall k :: 0 <= k < |s| ==> IsDigit(s[k])
  }

  predicate NoDot(s: string) {
    forall k :: 0 <= k < |s| ==> s[k] != '.'
  }

  function DigitChar(d: nat): (c: char)
    requires d < 10
    ensures IsDigit(c) && c as int - '0' as int == d
  {
    ('0' as int + d) as char
  }

  function DigitValue(c: char): (d: nat)
    requires IsDigit(c)
    ensures d < 10 && DigitChar(d) == c
  {
    c as int - '0' as int
  }

  /** The decimal text of `n`, without leading zeros, as a template literal prints an integer Number. */
  function Decimal(n: nat): (r: string)
    ensures 1 <= |r| && AllDigits(r) && NoDot(r)
    ensures r[0] == '0' <==> n == 0
    decreases n
  {
    if n < 10 then [DigitChar(n)] else Decimal(n / 10) + [DigitChar(n % 10)]
  }

  /** The number a string of decimal digits denotes. */
  function DigitsValue(s: string): nat
    requires AllDigits(s)
    decreases |s|
  {
    if |s| == 0 then 0 else 10 * DigitsValue(s[..|s| - 1]) + DigitValue(s[|s| - 1])
  }

  /** Reading back the decimal text of `n` gives `n`. */
  lemma {:induction false} DecimalRoundTrip(n: nat)
    ensures DigitsValue(Decimal(n)) == n
  {
    var r := Decimal(n);
    if n >= 10 {
      assert r[..|r| - 1] == Decimal(n / 10);
      DecimalRoundTrip(n / 10);
    }
  }

  /** The pieces of `s` between its '.' characters, as `s.split(".")` returns them. */
  function SplitDots(s: string): (parts: seq<string>)
    ensures 1 <= |parts|
    ensures forall k :: 0 <= k < |parts| ==> NoDot(parts[k])
    decreases |s|
  {
    if |s| == 0 then [""]
    else
      var rest := SplitDots(s[1..]);
      if s[0] == '.' then [""] + rest else [[s[0]] + rest[0]] + rest[1..]
  }

  /** A dot-free string is a single piece. */
  lemma {:induction false} SplitNoDot(a: string)
    requires NoDot(a)
    ensures SplitDots(a) == [a]
    decreases |a|
  {
    if |a| > 0 {
      SplitNoDot(a[1..]);
      assert [a[0]] + a[1..] == a;
    }
  }

  /** Joining two texts with a '.' joins their pieces. */
  lemma {:induction false} SplitConcat(x: string, y: string)
    ensures SplitDots(x + "." + y) == SplitDots(x) + SplitDots(y)
    decreases |x|
  {
    var s := x + "." + y;
    if |x| == 0 {
      assert s[1..] == y;
    } else {
      assert s[0] == x[0];
      assert s[1..] == x[1..] + "." + y;
      SplitConcat(x[1..], y);
    }
  }

  /** Dot-free fields joined with dots split back into those fields. */
  lemma SplitJoinThree(a: string, b: string, c: string)
    requires NoDot(a) && NoDot(b) && NoDot(c)
    ensures SplitDots(a + "." + b + "." + c) == [a, b, c]
  {
    SplitConcat(a + "." + b, c);
    SplitConcat(a, b);
    SplitNoDot(a);
    SplitNoDot(b);
    SplitNoDot(c);
  }

  /** Four dot-free fields joined with dots split back into those fields. */
  lemma SplitJoinFour(a: string, b: string, c: string, d: string)
    requires NoDot(a) && NoDot(b) && NoDot(c) && NoDot(d)
    ensures SplitDots(a + "." + b + "." + c + "." + d) == [a, b, c, d]
  {
    SplitConcat(a + "." + b + "." + c, d);
    SplitJoinThree(a, b, c);
    SplitNoDot(d);
  }
}
