/** Decimal text of integers: JavaScript's `Number.prototype.toString()` on
    integers and `parseInt(s, 10)`. Numbers are unbounded here; the precision
    loss of JavaScript numbers past 2^53 is outside the model. */
module Decimal {
  import opened Results
  import Text

  function DigitChar(d: int): (c: char)
    requires 0 <= d < 10
    ensures Text.IsDigit(c)
  {
    ('0' as int + d) as char
  }

  function DigitValue(c: char): (d: int)
    requires Text.IsDigit(c)
    ensures 0 <= d < 10
  {
    c as int - '0' as int
  }

  /** Decimal digits of a natural number, most significant first, no leading zero. */
  function NatToString(n: nat): (s: string)
    decreases n
  {
    if n < 10 then [DigitChar(n)] else NatToString(n / 10) + [DigitChar(n % 10)]
  }

  /** `n.toString()` for an integer `n`. */
  function IntToString(n: int): string {
    if n < 0 then "-" + NatToString(-n) else NatToString(n)
  }

  /** The number a string of digits denotes. */
  function DigitsValue(ds: string): (v: nat)
    requires Text.AllIn(ds, Text.IsDigit)
    decreases |ds|
  {
    if |ds| == 0 then 0 else DigitsValue(ds[..|ds| - 1]) * 10 + DigitValue(ds[|ds| - 1])
  }

  /** `s` with its leading white space (ECMAScript `StrWhiteSpaceChar`) removed. */
  function TrimStart(s: string): (t: string)
    ensures |t| <= |s| && t == s[|s| - |t|..]
    ensures |t| > 0 ==> !Text.IsSpace(t[0])
    ensures forall i :: 0 <= i < |s| - |t| ==> Text.IsSpace(s[i])
    decreases |s|
  {
    if |s| > 0 && Text.IsSpace(s[0]) then TrimStart(s[1..]) else s
  }

  /** The length of the longest prefix of `s` made of decimal digits. */
  function DigitPrefix(s: string): (k: nat)
    ensures k <= |s|
    ensures Text.AllIn(s[..k], Text.IsDigit)
    ensures k < |s| ==> !Text.IsDigit(s[k])
    decreases |s|
  {
    if |s| > 0 && Text.IsDigit(s[0]) then
      var k := 1 + DigitPrefix(s[1..]);
      assert s[..k] == [s[0]] + s[1..][..k - 1];
      k
    else 0
  }

  /** `parseInt(s, 10)`: skip leading white space, read an optional sign, then
      the longest run of digits; `None` stands for `NaN` (no digit at all). */
  function ParseInt(s: string): (r: Option<int>) {
    var t := TrimStart(s);
    var negative := |t| > 0 && t[0] == '-';
    var u := if |t| > 0 && (t[0] == '-' || t[0] == '+') then t[1..] else t;
    var k := DigitPrefix(u);
    if k == 0 then None
    else
      var v: int := DigitsValue(u[..k]);
      Some(if negative then -v else v)
  }

  lemma {:induction false} NatToStringDigits(n: nat)
    ensures |NatToString(n)| > 0
    ensures Text.AllIn(NatToString(n), Text.IsDigit)
    ensures DigitsValue(NatToString(n)) == n
    decreases n
  {
    if n >= 10 {
      NatToStringDigits(n / 10);
      var s := NatToString(n);
      assert s[..|s| - 1] == NatToString(n / 10);
    }
  }

  lemma {:induction false} DigitPrefixAll(ds: string)
    requires Text.AllIn(ds, Text.IsDigit)
    ensures DigitPrefix(ds) == |ds|
    decreases |ds|
  {
    if |ds| > 0 {
      DigitPrefixAll(ds[1..]);
    }
  }

  lemma TrimStartNoSpace(s: string)
    requires |s| > 0 && !Text.IsSpace(s[0])
    ensures TrimStart(s) == s
  {
  }

  /** `parseInt(String(n), 10) === n` for every integer `n`. */
  lemma ParseIntToString(n: int)
    ensures ParseInt(IntToString(n)) == Some(n)
  {
    var m: nat := if n < 0 then -n else n;
    NatToStringDigits(m);
    var ds := NatToString(m);
    DigitPrefixAll(ds);
    assert ds[..|ds|] == ds;
    var s := IntToString(n);
    if n < 0 {
      assert s == "-" + ds;
      TrimStartNoSpace(s);
      assert s[1..] == ds;
    } else {
      assert s == ds;
      assert Text.IsDigit(s[0]);
      TrimStartNoSpace(s);
    }
  }

  /** `parseInt` finds no number in a string that does not start, after white
      space and sign, with a digit. */
  lemma ParseIntNaN(s: string)
    requires var t := TrimStart(s);
             |t| == 0 || (!Text.IsDigit(t[0]) && t[0] != '-' && t[0] != '+')
    ensures ParseInt(s) == None
  {
  }
}
