/**
  Decimal rendering of node indices. The scene builder names the group of
  node `i` with the template literal `node-${index}` (js/script.js:60) and
  the animators look groups up by the same literal (js/script.js:120, 150),
  so the model needs the decimal form of a natural number and the fact that
  distinct indices give distinct names.
 */
module Decimal {
  import opened Options

  predicate IsDigit(c: char)
  {
    '0' <= c <= '9'
  }

  predicate AllDigits(s: string)
  {
    forall i :: 0 <= i < |s| ==> IsDigit(s[i])
  }

  function DigitChar(d: nat): (c: char)
    requires d < 10
    ensures IsDigit(c)
  {
    (48 + d) as char
  }

  function DigitValue(c: char): (d: nat)
    requires IsDigit(c)
    ensures d < 10 && DigitChar(d) == c
  {
    c as int - 48
  }

  /** How a template literal writes a node index: base ten, no leading
      zero, "0" for zero. This matches JavaScript's numeral for safe
      integers (below 2^53); node indices stay below the length of the node
      array. */
  function NatToString(n: nat): (s: string)
    ensures s != [] && AllDigits(s)
    ensures s[0] == '0' <==> n == 0
    ensures n < 10 <==> |s| == 1
    decreases n
  {
    if n < 10 then [DigitChar(n)]
    else NatToString(n / 10) + [DigitChar(n % 10)]
  }

  /** The number a string of digits denotes. */
  function Value(s: string): nat
    requires AllDigits(s)
  {
    if s == [] then 0 else Value(s[..|s| - 1]) * 10 + DigitValue(s[|s| - 1])
  }

  /** Reads back a canonical decimal numeral; anything else is rejected. */
  function ParseNat(s: string): Option<nat>
  {
    if s != [] && AllDigits(s) && (s[0] != '0' || |s| == 1) then Some(Value(s)) else None
  }

  /** Reading back what was written gives the number again. */
  lemma {:induction false} ParseShow(n: nat)
    ensures ParseNat(NatToString(n)) == Some(n)
    decreases n
  {
    var s := NatToString(n);
    if n < 10 {
      assert DigitValue(DigitChar(n)) == n;
      assert s[..0] == [];
    } else {
      ParseShow(n / 10);
      assert s[..|s| - 1] == NatToString(n / 10);
      assert s[|s| - 1] == DigitChar(n % 10);
      assert DigitValue(DigitChar(n % 10)) == n % 10;
      assert Value(s) == Value(NatToString(n / 10)) * 10 + n % 10;
    }
  }

  /** Every canonical numeral is what its number is written as. */
  lemma {:induction false} ShowParse(s: string, n: nat)
    requires ParseNat(s) == Some(n)
    ensures NatToString(n) == s
    decreases |s|
  {
    if |s| > 1 {
      var p := s[..|s| - 1];
      var d := DigitValue(s[|s| - 1]);
      assert p[0] == s[0];
      assert AllDigits(p);
      ShowParse(p, Value(p));
      assert n == Value(p) * 10 + d;
      assert n / 10 == Value(p) && n % 10 == d;
      assert s == p + [s[|s| - 1]];
    }
  }

  /** Distinct numbers are written differently. */
  lemma NatToStringInjective(a: nat, b: nat)
    requires NatToString(a) == NatToString(b)
    ensures a == b
  {
    ParseShow(a);
    ParseShow(b);
  }
}
