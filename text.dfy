/**
 * Text formatting used by the analyzer: Python's `str()` of a non-negative
 * integer, the generic grid node names `n{i}x{j}`, the pad names
 * `{reference}-Pad{number}` and Python's `str.lower()` restricted to ASCII.
 */
module Text {

  predicate IsDigit(c: char) {
    '0' <= c <= '9'
  }

  predicate AllDigits(s: string) {
    forall k :: 0 <= k < |s| ==> IsDigit(s[k])
  }

  function DigitChar(d: nat): (c: char)
    requires d < 10
    ensures IsDigit(c) && c as int - '0' as int == d
  {
    ('0' as int + d) as char
  }

  /** Decimal text of `n`, as Python's `"{}".format(n)` writes a non-negative int. */
  function Dec(n: nat): (s: string)
    ensures |s| > 0 && AllDigits(s)
    decreases n
  {
    if n < 10 then [DigitChar(n)] else Dec(n / 10) + [DigitChar(n % 10)]
  }

  /** The value of a string of decimal digits (the partner of `Dec`). */
  function ParseDec(s: string): nat
    requires AllDigits(s)
    decreases |s|
  {
    if s == [] then 0 else ParseDec(s[..|s| - 1]) * 10 + (s[|s| - 1] as int - '0' as int)
  }

  lemma {:induction false} ParseDecOfDec(n: nat)
    ensures ParseDec(Dec(n)) == n
    decreases n
  {
    if n >= 10 {
      var s := Dec(n);
      assert s[..|s| - 1] == Dec(n / 10);
      ParseDecOfDec(n / 10);
    }
  }

  /** Distinct numbers are written differently. */
  lemma DecInjective(a: nat, b: nat)
    requires Dec(a) == Dec(b)
    ensures a == b
  {
    ParseDecOfDec(a);
    ParseDecOfDec(b);
  }

  /** The name of the grid node in row `i`, column `j`: `"n{}x{}".format(i, j)`. */
  function GenericName(i: nat, j: nat): (s: string)
  {
    "n" + Dec(i) + "x" + Dec(j)
  }

  /** Different grid cells get different generic node names. */
  lemma GenericNameInjective(i: nat, j: nat, k: nat, l: nat)
    requires GenericName(i, j) == GenericName(k, l)
    ensures i == k && j == l
  {
    var s := GenericName(i, j);
    var a, b := Dec(i), Dec(k);
    assert s == "n" + a + "x" + Dec(j);
    assert s == "n" + b + "x" + Dec(l);
    assert s[1 + |a|] == 'x';
    assert s[1 + |b|] == 'x';
    assert |a| == |b|;
    assert a == s[1..1 + |a|];
    assert b == s[1..1 + |b|];
    DecInjective(i, k);
    assert Dec(j) == s[2 + |a|..];
    assert Dec(l) == s[2 + |b|..];
    DecInjective(j, l);
  }

  /** The label of a pad in the configuration table: `"{}-Pad{}".format(reference, number)`. */
  function PadName(reference: string, number: string): (s: string)
  {
    reference + "-Pad" + number
  }

  /** A pad name is never the name of a generic grid node (it holds a '-', they do not). */
  lemma PadNameIsNotGeneric(reference: string, number: string, i: nat, j: nat)
    ensures PadName(reference, number) != GenericName(i, j)
  {
    var p := PadName(reference, number);
    assert p[|reference|] == '-';
    var g := GenericName(i, j);
    assert forall k :: 0 <= k < |g| ==> g[k] != '-' by {
      forall k | 0 <= k < |g| ensures g[k] != '-' {
        var a := Dec(i);
        if 1 <= k < 1 + |a| {
          assert g[k] == a[k - 1];
        } else if 2 + |a| <= k {
          assert g[k] == Dec(j)[k - 2 - |a|];
        }
      }
    }
  }

  function LowerChar(c: char): char {
    if 'A' <= c <= 'Z' then (c as int + 32) as char else c
  }

  /** Python's `str.lower()` on ASCII letters; every other character is kept. */
  function Lower(s: string): (r: string)
    ensures |r| == |s|
    ensures forall k :: 0 <= k < |s| ==> !('A' <= r[k] <= 'Z')
    ensures forall k :: 0 <= k < |s| && !('A' <= s[k] <= 'Z') ==> r[k] == s[k]
    ensures forall k :: 0 <= k < |s| && 'A' <= s[k] <= 'Z' ==> r[k] as int == s[k] as int + 32
  {
    seq(|s|, k requires 0 <= k < |s| => LowerChar(s[k]))
  }

  /** Generic node names are already lower case, so the solver reports them unchanged. */
  lemma LowerGenericName(i: nat, j: nat)
    ensures Lower(GenericName(i, j)) == GenericName(i, j)
  {
    var g := GenericName(i, j);
    var a := Dec(i);
    forall k | 0 <= k < |g| ensures !('A' <= g[k] <= 'Z') {
      if 1 <= k < 1 + |a| {
        assert g[k] == a[k - 1];
      } else if 2 + |a| <= k {
        assert g[k] == Dec(j)[k - 2 - |a|];
      }
    }
  }
}
