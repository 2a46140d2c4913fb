/**
 * The two standard-library conversions the headers rely on, for `int`:
 * `std::to_string` (decimal text) and `std::stoi` (leading-integer parse).
 * Integers are unbounded here, so `std::stoi`'s `out_of_range` is not modelled.
 */
module StdText {
  import opened Wrappers

  predicate IsDigit(c: char) {
    '0' <= c <= '9'
  }

  function DigitValue(c: char): (d: nat)
    requires IsDigit(c)
    ensures d < 10
  {
    c as int - '0' as int
  }

  function DigitChar(d: nat): (c: char)
    requires d < 10
    ensures IsDigit(c) && DigitValue(c) == d
  {
    ('0' as int + d) as char
  }

  /** Decimal digits of `n`, most significant first, without leading zeros. */
  function NatText(n: nat): (s: string)
    ensures |s| > 0
    ensures forall i :: 0 <= i < |s| ==> IsDigit(s[i])
    decreases n
  {
    if n < 10 then [DigitChar(n)] else NatText(n / 10) + [DigitChar(n % 10)]
  }

  /** `std::to_string(int)`: an optional minus sign followed by the digits. */
  function IntText(x: int): (s: string)
    ensures |s| > 0
    ensures '.' !in s && '/' !in s
    ensures (s[0] == '-') <==> (x < 0)
  {
    if x < 0 then "-" + NatText(-x) else NatText(x)
  }

  /** The value of a string of decimal digits. */
  function DigitsValue(s: string): nat
    requires forall i :: 0 <= i < |s| ==> IsDigit(s[i])
  {
    if s == [] then 0 else DigitsValue(s[..|s| - 1]) * 10 + DigitValue(s[|s| - 1])
  }

  /** Length of the run of digits at the start of `s`. */
  function DigitRun(s: string): (n: nat)
    ensures n <= |s|
    ensures forall i :: 0 <= i < n ==> IsDigit(s[i])
    ensures n < |s| ==> !IsDigit(s[n])
  {
    if s == [] || !IsDigit(s[0]) then 0 else 1 + DigitRun(s[1..])
  }

  /** The white-space characters of `std::isspace` in the C locale: '\t', '\n', '\v', '\f', '\r' and ' '. */
  predicate IsSpace(c: char) {
    c == ' ' || ('\t' <= c <= '\r')
  }

  function SkipSpace(s: string): (t: string)
    ensures |t| <= |s| && t == s[|s| - |t|..]
    ensures t != [] ==> !IsSpace(t[0])
  {
    if s != [] && IsSpace(s[0]) then SkipSpace(s[1..]) else s
  }

  /**
   * `std::stoi(s)` in base 10: white space is skipped, one optional sign is
   * read, then the longest run of digits; text after the run is ignored.
   * Without a digit the call throws `std::invalid_argument` (`None`).
   */
  function StoI(s: string): (r: Option<int>)
    ensures r.Some? ==> exists i :: 0 <= i < |s| && IsDigit(s[i])
  {
    var t := SkipSpace(s);
    var signed := |t| > 0 && (t[0] == '-' || t[0] == '+');
    var u := if signed then t[1..] else t;
    var n := DigitRun(u);
    if n == 0 then None
    else
      assert IsDigit(s[|s| - |u|]);
      var v: int := DigitsValue(u[..n]);
      Some(if signed && t[0] == '-' then -v else v)
  }

  lemma {:induction false} DigitsValueOfNatText(n: nat)
    ensures DigitsValue(NatText(n)) == n
    decreases n
  {
    var s := NatText(n);
    if n >= 10 {
      DigitsValueOfNatText(n / 10);
      assert s[..|s| - 1] == NatText(n / 10);
    }
  }

  lemma DigitRunOfDigits(s: string)
    requires forall i :: 0 <= i < |s| ==> IsDigit(s[i])
    ensures DigitRun(s) == |s|
  {
  }

  /** `std::stoi` reads back what `std::to_string` writes. */
  lemma StoIOfIntText(x: int)
    ensures StoI(IntText(x)) == Some(x)
  {
    var s := IntText(x);
    var m: nat := if x < 0 then -x else x;
    var digits := NatText(m);
    assert !IsSpace(s[0]);
    assert SkipSpace(s) == s;
    DigitRunOfDigits(digits);
    assert digits[..|digits|] == digits;
    DigitsValueOfNatText(m);
    if x < 0 {
      assert s[1..] == digits;
    } else {
      assert s == digits;
      assert IsDigit(s[0]);
    }
  }

  /** A text with no digit at all is refused by `std::stoi`. */
  lemma StoIWithoutDigits(s: string)
    requires forall i :: 0 <= i < |s| ==> !IsDigit(s[i])
    ensures StoI(s) == None
  {
  }
}
