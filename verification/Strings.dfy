/** Strings as sequences of characters, where a `char` stands for one UTF-16 code unit.
    Only the operations of JavaScript's String that the modelled code relies on are defined. */
module Strings {

  datatype Option<+T> = None | Some(value: T)

  /** `p` occurs in `s` at index `i`. */
  predicate At(s: string, i: int, p: string) {
    0 <= i && i + |p| <= |s| && s[i..i + |p|] == p
  }

  /** `s.includes(p)` */
  predicate Contains(s: string, p: string) {
    exists i | 0 <= i <= |s| :: At(s, i, p)
  }

  predicate StartsWith(s: string, p: string) {
    At(s, 0, p)
  }

  predicate EndsWith(s: string, p: string) {
    At(s, |s| - |p|, p)
  }

  /** `parts.join(sep)` */
  function Join(parts: seq<string>, sep: string): string {
    if parts == [] then ""
    else if |parts| == 1 then parts[0]
    else parts[0] + sep + Join(parts[1..], sep)
  }

  lemma SliceOfSlice(s: string, lo: int, hi: int, i: int, j: int)
    requires 0 <= lo <= hi <= |s| && 0 <= i <= j <= hi - lo
    ensures s[lo..hi][i..j] == s[lo + i..lo + j]
  {
    var t := s[lo..hi];
    assert forall k | i <= k < j :: t[k] == s[lo + k];
    assert forall k | 0 <= k < j - i :: t[i..j][k] == t[i + k];
  }

  /** An occurrence inside a slice is an occurrence in the whole. */
  lemma SliceContains(s: string, lo: int, hi: int, p: string)
    requires 0 <= lo <= hi <= |s|
    ensures Contains(s[lo..hi], p) ==> Contains(s, p)
  {
    if Contains(s[lo..hi], p) {
      var i :| 0 <= i <= hi - lo && At(s[lo..hi], i, p);
      SliceOfSlice(s, lo, hi, i, i + |p|);
      assert At(s, lo + i, p);
    }
  }

  /** Index of the first occurrence of the character, or the length when there is none. */
  function IndexOfChar(s: string, c: char): (k: nat)
    ensures k <= |s|
    ensures c !in s[..k]
    ensures k < |s| ==> s[k] == c
  {
    if s == [] || s[0] == c then 0
    else
      assert forall k | 0 <= k <= |s[1..]| :: s[..k + 1] == [s[0]] + s[1..][..k];
      1 + IndexOfChar(s[1..], c)
  }

  lemma {:induction false} IndexOfCharAt(a: string, c: char, b: string)
    requires c !in a
    ensures IndexOfChar(a + [c] + b, c) == |a|
  {
    if a == [] {
    } else {
      assert (a + [c] + b)[1..] == a[1..] + [c] + b;
      IndexOfCharAt(a[1..], c, b);
    }
  }

  // ---- Decimal numerals, as produced by interpolating a non-negative integer ----

  predicate IsDigit(c: char) {
    '0' <= c <= '9'
  }

  predicate AllDigits(s: string) {
    forall c | c in s :: IsDigit(c)
  }

  function Digit(d: nat): (c: char)
    requires d < 10
    ensures IsDigit(c) && DigitValue(c) == d
  {
    '0' + d as char
  }

  function DigitValue(c: char): (d: nat)
    requires IsDigit(c)
    ensures d < 10
  {
    (c - '0') as int
  }

  function Decimal(n: nat): (s: string)
    ensures s != [] && AllDigits(s)
  {
    if n < 10 then [Digit(n)] else Decimal(n / 10) + [Digit(n % 10)]
  }

  function ParseDecimal(s: string): nat
    requires AllDigits(s)
  {
    if s == [] then 0 else 10 * ParseDecimal(s[..|s| - 1]) + DigitValue(s[|s| - 1])
  }

  lemma {:induction false} ParseDecimalInverts(n: nat)
    ensures ParseDecimal(Decimal(n)) == n
  {
    if n >= 10 {
      var s := Decimal(n);
      assert s[..|s| - 1] == Decimal(n / 10);
      ParseDecimalInverts(n / 10);
    }
  }

  lemma DigitInverts(c: char)
    requires IsDigit(c)
    ensures Digit(DigitValue(c)) == c
  {
  }

  lemma DecimalAppend(n: nat, d: nat)
    requires n > 0 && d < 10
    ensures Decimal(10 * n + d) == Decimal(n) + [Digit(d)]
  {
  }

  /** Every digit string without a leading zero is the numeral of its value. */
  lemma {:induction false} DecimalInverts(s: string)
    requires s != [] && AllDigits(s) && s[0] != '0'
    ensures ParseDecimal(s) > 0
    ensures Decimal(ParseDecimal(s)) == s
  {
    var front, c := s[..|s| - 1], s[|s| - 1];
    assert s == front + [c];
    DigitInverts(c);
    if front == [] {
      assert ParseDecimal(s) == DigitValue(c);
    } else {
      DecimalInverts(front);
      DecimalAppend(ParseDecimal(front), DigitValue(c));
    }
  }

  function Pow10(k: nat): nat {
    if k == 0 then 1 else 10 * Pow10(k - 1)
  }

  lemma {:induction false} Pow10Monotone(j: nat, k: nat)
    requires j <= k
    ensures Pow10(j) <= Pow10(k)
    decreases k
  {
    if j < k {
      Pow10Monotone(j, k - 1);
    }
  }

  lemma {:induction false} DecimalLength(n: nat, k: nat)
    requires k > 0 && n < Pow10(k)
    ensures |Decimal(n)| <= k
    decreases k
  {
    if n >= 10 {
      DecimalLength(n / 10, k - 1);
    }
  }

  /** A one in front of at most `k` digits is less than two followed by `k` zeros. */
  lemma {:induction false} LeadingOne(t: string)
    requires AllDigits(t)
    ensures AllDigits("1" + t) && ParseDecimal("1" + t) < 2 * Pow10(|t|)
    decreases |t|
  {
    if t == [] {
      assert "1" + t == "1" && "1"[..0] == "";
    } else {
      var front := t[..|t| - 1];
      LeadingOne(front);
      assert ("1" + t)[..|t|] == "1" + front && ("1" + t)[|t|] == t[|t| - 1];
    }
  }
}
