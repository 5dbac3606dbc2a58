/**
 * The three JavaScript string built-ins the table component relies on, for the
 * inputs it gives them: interpolating a non-negative integer into a template
 * literal, `Number(s)` on a string, and `s.split(sep)` with a one-character
 * separator.
 */
module JsText {
  import opened Wrappers
  import Sequences

  predicate IsDigit(ch: char)
  {
    '0' <= ch <= '9'
  }

  predicate AllDigits(s: string)
  {
    forall i :: 0 <= i < |s| ==> IsDigit(s[i])
  }

  function DigitValue(ch: char): (d: nat)
    requires IsDigit(ch)
    ensures d < 10
  {
    ch as int - '0' as int
  }

  function DigitChar(d: nat): (ch: char)
    requires d < 10
    ensures IsDigit(ch) && DigitValue(ch) == d
  {
    ('0' as int + d) as char
  }

  /** The decimal digits of `n`, most significant first, without leading zeros: `${n}`. */
  function NatToString(n: nat): (s: string)
    ensures |s| > 0 && AllDigits(s)
    ensures |s| > 1 ==> s[0] != '0'
  {
    if n < 10 then [DigitChar(n)] else NatToString(n / 10) + [DigitChar(n % 10)]
  }

  /** The value of a string of decimal digits, read from the left. */
  function DigitsValue(s: string): nat
    requires AllDigits(s)
  {
    if |s| == 0 then 0 else 10 * DigitsValue(s[..|s| - 1]) + DigitValue(s[|s| - 1])
  }

  /**
   * `Number(s)`: a string of decimal digits denotes its value (the empty string
   * denotes 0); every other string gives `None`, which stands for NaN.
   */
  function ToNumber(s: string): (r: Option<nat>)
    ensures r.Some? <==> AllDigits(s)
    ensures s == [] ==> r == Some(0)
  {
    if AllDigits(s) then Some(DigitsValue(s)) else None
  }

  /** Reading back the decimal form of `n` gives `n`. */
  lemma {:induction false} ToNumberOfNatToString(n: nat)
    ensures ToNumber(NatToString(n)) == Some(n)
  {
    var s := NatToString(n);
    if n < 10 {
      assert s[..0] == [];
    } else {
      ToNumberOfNatToString(n / 10);
      assert s[..|s| - 1] == NatToString(n / 10);
      assert DigitsValue(s) == 10 * (n / 10) + n % 10;
    }
  }

  /** Distinct naturals have distinct decimal forms. */
  lemma NatToStringInjective(m: nat, n: nat)
    ensures NatToString(m) == NatToString(n) <==> m == n
  {
    if NatToString(m) == NatToString(n) {
      ToNumberOfNatToString(m);
      ToNumberOfNatToString(n);
    }
  }

  /** `s.split(sep)`: the pieces of `s` between occurrences of `sep`, left to right. */
  function Split(s: string, sep: char): (parts: seq<string>)
    ensures |parts| >= 1
    ensures forall i :: 0 <= i < |parts| ==> sep !in parts[i]
    ensures Join(parts, sep) == s
    decreases |s|
  {
    if sep !in s then [s]
    else
      var i := Sequences.IndexOf(s, sep);
      assert s == s[..i] + [sep] + s[i + 1..];
      [s[..i]] + Split(s[i + 1..], sep)
  }

  /** `parts.join(sep)`: the pieces with `sep` between each two neighbours. */
  function Join(parts: seq<string>, sep: char): string
    requires |parts| >= 1
  {
    if |parts| == 1 then parts[0] else parts[0] + [sep] + Join(parts[1..], sep)
  }

  /** The first separator of `s` is at `p`, and the next one at `q` (or there is none and `q == |s|`). */
  ghost predicate FirstTwoSeparators(s: string, sep: char, p: int, q: int)
  {
    && 0 <= p < q <= |s|
    && s[p] == sep && sep !in s[..p] && sep !in s[p + 1..q]
    && (q == |s| || s[q] == sep)
  }

  /** The first two pieces of a split are the text before the first separator and the text between the first two. */
  lemma SplitAtFirstTwo(s: string, sep: char, p: int, q: int)
    requires FirstTwoSeparators(s, sep, p, q)
    ensures var parts := Split(s, sep);
      |parts| > 1 && parts[0] == s[..p] && parts[1] == s[p + 1..q]
  {
    assert sep in s;
    var i := Sequences.IndexOf(s, sep);
    assert forall k :: 0 <= k < p ==> s[k] == s[..p][k];
    assert i == p;
    var rest := s[p + 1..];
    assert forall k :: 0 <= k < q - p - 1 ==> rest[k] == s[p + 1..q][k];
    if q == |s| {
      assert rest == s[p + 1..q];
    } else {
      assert rest[q - p - 1] == sep;
      var j := Sequences.IndexOf(rest, sep);
      assert j == q - p - 1;
      assert rest[..j] == s[p + 1..q];
    }
  }

  lemma SplitFirstTwoPieces(s: string, sep: char)
    ensures forall p, q :: FirstTwoSeparators(s, sep, p, q) ==>
      var parts := Split(s, sep);
      |parts| > 1 && parts[0] == s[..p] && parts[1] == s[p + 1..q]
  {
    forall p, q | FirstTwoSeparators(s, sep, p, q)
      ensures var parts := Split(s, sep);
        |parts| > 1 && parts[0] == s[..p] && parts[1] == s[p + 1..q]
    {
      SplitAtFirstTwo(s, sep, p, q);
    }
  }

  /** Splitting two separator-free pieces joined by the separator gives the two pieces back. */
  lemma SplitAroundSeparator(a: string, b: string, sep: char)
    requires sep !in a && sep !in b
    ensures Split(a + [sep] + b, sep) == [a, b]
  {
    var s := a + [sep] + b;
    assert s[|a|] == sep;
    var i := Sequences.IndexOf(s, sep);
    assert forall k :: 0 <= k < |a| ==> s[k] == a[k];
    assert s[..i] == a;
    assert s[i + 1..] == b;
  }
}
