/**
  Index keys: JavaScript's `String(n)` for the integers used as path keys, and the unary `+key`
  that reads such a key back as a number.
*/
module IndexKeys {

  predicate IsDigit(c: char)
  {
    '0' <= c <= '9'
  }

  function DigitChar(d: nat): (c: char)
    requires d < 10
    ensures IsDigit(c) && c as int - '0' as int == d
  {
    ('0' as int + d) as char
  }

  /** `String(n)` for a natural number: its shortest decimal spelling. */
  function NatString(n: nat): (s: string)
    ensures |s| > 0 && (forall i :: 0 <= i < |s| ==> IsDigit(s[i]))
    ensures |s| > 1 ==> s[0] != '0'
    decreases n
  {
    if n < 10 then [DigitChar(n)] else NatString(n / 10) + [DigitChar(n % 10)]
  }

  /** `String(i)` for any integer. */
  function IntString(i: int): (s: string)
    ensures i < 0 ==> |s| > 1 && s[0] == '-'
  {
    if i < 0 then "-" + NatString(-i) else NatString(i)
  }

  /** The value of a string of decimal digits. */
  function DecimalValue(s: string): nat
    requires forall i :: 0 <= i < |s| ==> IsDigit(s[i])
    decreases |s|
  {
    if |s| == 0 then 0
    else
      assert IsDigit(s[|s| - 1]);
      DecimalValue(s[..|s| - 1]) * 10 + (s[|s| - 1] as int - '0' as int)
  }

  /** `+key` as the source applies it to index keys: the decimal value of a non-empty digit
      string; every other key reads as -1. */
  function NumericKey(key: string): (i: int)
    ensures i >= -1
  {
    if |key| > 0 && forall j :: 0 <= j < |key| ==> IsDigit(key[j]) then DecimalValue(key) else -1
  }

  /** Reading back the spelling of an index gives the index. */
  lemma {:induction false} NumericKeyOfNatString(n: nat)
    ensures NumericKey(NatString(n)) == n
    decreases n
  {
    var s := NatString(n);
    if n >= 10 {
      var p := NatString(n / 10);
      assert s == p + [DigitChar(n % 10)];
      assert s[..|s| - 1] == p;
      NumericKeyOfNatString(n / 10);
      assert DecimalValue(s) == DecimalValue(p) * 10 + n % 10;
    }
  }

  /** Keys that are the canonical spelling of an index: exactly the ones `String(+key)` returns. */
  predicate IsIndexKey(key: string)
  {
    NumericKey(key) >= 0 && NatString(NumericKey(key)) == key
  }

  lemma NatStringIsIndexKey(n: nat)
    ensures IsIndexKey(NatString(n))
  {
    NumericKeyOfNatString(n);
  }
}
