/**
 * `math::Frac<int>` (`IFrac`) of frac.hpp: a numerator/denominator pair
 * that is never reduced, its arithmetic, and the `_ifrac` literal parser.
 */
module Fractions {
  import opened Wrappers
  import opened Cpp
  import opened StdText
  import Utils

  /** The value a `Frac<int>` holds: numerator and denominator exactly as stored. */
  datatype Fraction = Fraction(num: int, den: int)

  /** Two fractions denote the same rational number. */
  predicate SameValue(f: Fraction, g: Fraction) {
    f.num * g.den == g.num * f.den
  }

  /** The product of two fractions, term by term. */
  function Times(f: Fraction, g: Fraction): (r: Fraction)
    requires f.den != 0 && g.den != 0
    ensures r.den != 0
  {
    Fraction(f.num * g.num, f.den * g.den)
  }

  /**
   * `f + g` as written at frac.hpp:63-65: the second numerator term
   * multiplies `g`'s numerator by `f`'s numerator, not by `f`'s denominator.
   */
  function Sum(f: Fraction, g: Fraction): (r: Fraction)
    requires f.den != 0 && g.den != 0
    ensures r.den != 0
  {
    Fraction(f.num * g.den + g.num * f.num, f.den * g.den)
  }

  /** `f + n` for a whole number `n`, frac.hpp:67-69. */
  function SumWhole(f: Fraction, n: int): (r: Fraction)
    requires f.den != 0
    ensures r.den == f.den
  {
    Fraction(f.num + n * f.den, f.den)
  }

  /** The sum of two fractions over the product of their denominators. */
  function IntendedSum(f: Fraction, g: Fraction): (r: Fraction)
    requires f.den != 0 && g.den != 0
    ensures r.den != 0
  {
    Fraction(f.num * g.den + g.num * f.den, f.den * g.den)
  }

  /** What `f + g` computes as written is the product `f * (g + 1)`, term by term. */
  lemma SumIsTimesSuccessor(f: Fraction, g: Fraction)
    requires f.den != 0 && g.den != 0
    ensures Sum(f, g) == Times(f, SumWhole(g, 1))
  {
    assert f.num * g.den + g.num * f.num == f.num * (g.num + 1 * g.den);
  }

  /** Adding a whole number `n` agrees with adding the fraction `n/1`. */
  lemma SumWholeIsIntendedSum(f: Fraction, n: int)
    requires f.den != 0
    ensures SumWhole(f, n) == IntendedSum(f, Fraction(n, 1))
  {
  }

  lemma IntendedSumCommutes(f: Fraction, g: Fraction)
    requires f.den != 0 && g.den != 0
    ensures IntendedSum(f, g) == IntendedSum(g, f)
  {
  }

  /** The corrected sum depends only on the values of its operands, not on how they are written. */
  lemma IntendedSumRespectsValue(f: Fraction, f': Fraction, g: Fraction)
    requires f.den != 0 && f'.den != 0 && g.den != 0
    requires SameValue(f, f')
    ensures SameValue(IntendedSum(f, g), IntendedSum(f', g))
  {
    var a, b, c, d, e, h := f.num, f.den, f'.num, f'.den, g.num, g.den;
    assert a * d == c * b;
    calc {
      (a * h + e * b) * (d * h);
      (a * d) * (h * h) + e * b * d * h;
      (c * b) * (h * h) + e * b * d * h;
      (c * h + e * d) * (b * h);
    }
  }

  /** `1/2 + 1/3` as written gives `4/6`, whereas the sum is `5/6`. */
  lemma SumCounterexample()
    ensures Sum(Fraction(1, 2), Fraction(1, 3)) == Fraction(4, 6)
    ensures IntendedSum(Fraction(1, 2), Fraction(1, 3)) == Fraction(5, 6)
    ensures !SameValue(Fraction(4, 6), Fraction(5, 6))
  {
  }

  /** `f + g` as written takes the value of the corrected sum exactly when `f.num == f.den` or `g.num == 0`. */
  lemma SumAgreesOnlyWhen(f: Fraction, g: Fraction)
    requires f.den != 0 && g.den != 0
    ensures Sum(f, g) == IntendedSum(f, g) <==> (g.num == 0 || f.num == f.den)
  {
    assert Sum(f, g).num - IntendedSum(f, g).num == g.num * (f.num - f.den);
  }

  /** `Frac<int>` (frac.hpp:10-79); the display-mode field is not modelled. */
  class Frac {
    var num: int
    var den: int

    /** Every constructor and setter refuses a zero denominator. */
    ghost predicate Valid()
      reads this
    {
      den != 0
    }

    function Value(): Fraction
      reads this
    {
      Fraction(num, den)
    }

    /** `Frac(numerator, denominator)`, frac.hpp:18-24; a zero denominator ends the program. */
    constructor (numerator: int, denominator: int)
      requires denominator != 0
      ensures Valid() && num == numerator && den == denominator
    {
      num := numerator;
      den := denominator;
    }

    /** `Frac(result)`, frac.hpp:26-28: the denominator keeps its default 1. */
    constructor Whole(v: int)
      ensures Valid() && num == v && den == 1
    {
      num := v;
      den := 1;
    }

    /** `Frac()`, frac.hpp:30 with the member defaults at frac.hpp:12-13. */
    constructor Default()
      ensures Valid() && num == 1 && den == 1
    {
      num := 1;
      den := 1;
    }

    /** `result()`, frac.hpp:32-34: the quotient truncated toward zero. */
    function Result(): (q: int)
      reads this
      requires Valid()
      ensures Abs(num) - Abs(den) < Abs(q) * Abs(den) <= Abs(num)
      ensures q != 0 ==> (q < 0 <==> (num < 0) != (den < 0))
    {
      TruncDiv(num, den)
    }

    /** `numerator(new_numerator)`, frac.hpp:44-46: any value is accepted. */
    method SetNumerator(n: int)
      modifies this
      ensures num == n && den == old(den)
    {
      num := n;
    }

    /** `denominator(new_denominator)`, frac.hpp:48-53: zero is refused and nothing changes. */
    method SetDenominator(d: int) returns (ok: bool)
      modifies this
      ensures ok <==> d != 0
      ensures num == old(num) && den == (if ok then d else old(den))
    {
      if d == 0 {
        return false;
      }
      den := d;
      return true;
    }

    /** `operator+(Frac const&)`, frac.hpp:63-65: a new fraction, neither operand changes. */
    method Plus(other: Frac) returns (r: Frac)
      requires Valid() && other.Valid()
      ensures fresh(r) && r.Valid() && r.Value() == Sum(Value(), other.Value())
    {
      r := new Frac(num * other.den + other.num * num, den * other.den);
    }

    /** `operator+(NUMBER)`, frac.hpp:67-69. */
    method PlusWhole(n: int) returns (r: Frac)
      requires Valid()
      ensures fresh(r) && r.Valid() && r.Value() == SumWhole(Value(), n)
    {
      r := new Frac(num + n * den, den);
    }

    /** Prefix `++`, frac.hpp:71-73: the same value as `f + 1`, stored in place. */
    method Increment()
      requires Valid()
      modifies this
      ensures Valid() && Value() == SumWhole(old(Value()), 1)
    {
      num := num + den;
    }

    /** Postfix `++`, frac.hpp:75-77: delegates to the prefix form. */
    method PostIncrement()
      requires Valid()
      modifies this
      ensures Valid() && Value() == SumWhole(old(Value()), 1)
    {
      Increment();
    }

    /**
     * Length of the fraction bar in stacked output, frac.hpp:151: the longer
     * of the reduced texts of numerator and denominator, which for integers
     * are their plain decimal texts.
     */
    function BarWidth(): (w: nat)
      reads this
      ensures w == Max(|IntText(num)|, |IntText(den)|)
      ensures w >= 1
    {
      Utils.ReducedIntText(num);
      Utils.ReducedIntText(den);
      var a := |Utils.Reduced(IntText(num))|;
      var b := |Utils.Reduced(IntText(den))|;
      if a >= b then a else b
    }

    /**
     * The stacked output of frac.hpp:149-156: numerator, a bar of `-`
     * written one character per loop step, then the denominator.
     */
    method RenderStacked() returns (text: string)
      ensures text == IntText(num) + "\n" + Dashes(BarWidth()) + "\n" + IntText(den)
    {
      var size := BarWidth();
      var bar := "";
      var i := 0;
      while i < size
        invariant 0 <= i <= size && bar == Dashes(i)
      {
        DashesStep(i);
        bar := bar + "-";
        i := i + 1;
      }
      text := IntText(num) + "\n" + bar + "\n" + IntText(den);
    }
  }

  /** A bar of `n` dashes. */
  function Dashes(n: nat): (s: string)
    ensures |s| == n && forall i :: 0 <= i < n ==> s[i] == '-'
  {
    seq(n, _ => '-')
  }

  lemma DashesStep(n: nat)
    ensures Dashes(n + 1) == Dashes(n) + "-"
  {
  }

  /** Both increments are the same as assigning `f + 1`. */
  method IncrementsAgree(a: Frac, b: Frac)
    requires a != b && a.Valid() && a.Value() == b.Value()
    modifies a, b
    ensures a.Value() == b.Value() == SumWhole(old(a.Value()), 1)
  {
    a.Increment();
    b.PostIncrement();
  }

  // ---------------------------------------------------------------------
  // The `_ifrac` literal, frac.hpp:87-96

  /** `std::size_t` is 64 bits wide; `npos` is its largest value. */
  const SizeModulus: int := 0x1_0000_0000_0000_0000
  const NPOS: int := SizeModulus - 1

  /** `p + 1` on `std::size_t`: `npos + 1` wraps around to 0. */
  function SizeSuccessor(p: nat): (r: nat)
    requires p <= NPOS
    ensures p < NPOS ==> r == p + 1
    ensures p == NPOS ==> r == 0
  {
    (p + 1) % SizeModulus
  }

  /** `std::string::find(c)`: the first index of `c`, or `npos`. */
  function Find(s: string, c: char): (p: int)
    requires |s| < NPOS
    ensures p == NPOS <==> c !in s
    ensures p != NPOS ==> 0 <= p < |s| && s[p] == c && c !in s[..p]
  {
    if c !in s then NPOS else FirstIndex(s, c)
  }

  function FirstIndex(s: string, c: char): (p: nat)
    requires c in s
    ensures p < |s| && s[p] == c && c !in s[..p]
  {
    if s[0] == c then 0
    else
      assert c in s[1..];
      var p := FirstIndex(s[1..], c);
      assert s[..p + 1] == [s[0]] + s[1..][..p];
      p + 1
  }

  /**
   * `std::string::substr(pos, count)`: at most `count` characters from
   * `pos`. A `pos` past the end would throw `out_of_range`; `_ifrac` never
   * passes one.
   */
  function Substr(s: string, pos: nat, count: nat): (r: string)
    requires pos <= |s|
    ensures |r| <= count && pos + |r| <= |s| && r == s[pos..pos + |r|]
    ensures |r| == count || pos + |r| == |s|
  {
    if count <= |s| - pos then s[pos..pos + count] else s[pos..]
  }

  datatype ParseError =
    | InvalidExpression   // `std::stoi` threw `invalid_argument`
    | ZeroDenominator     // the `Frac` constructor refused a zero denominator

  /**
   * `operator"" _ifrac(const char*, size_t)`: the text before the first
   * '/' and the text after it are each read with `std::stoi`. Without a
   * '/', `npos + 1` wraps to 0 and both parts are the whole text.
   */
  function ParseIFrac(expr: string): (r: Result<Fraction, ParseError>)
    requires |expr| < NPOS
    ensures r.Success? ==> r.value.den != 0
    ensures r.Success? ==> exists i :: 0 <= i < |expr| && IsDigit(expr[i])
  {
    var pos := Find(expr, '/');
    FromParts(StoI(Substr(expr, 0, pos)), StoI(Substr(expr, SizeSuccessor(pos), NPOS)))
  }

  /** The try block of `_ifrac` once both `std::stoi` calls have run. */
  function FromParts(numerator: Option<int>, denominator: Option<int>): (r: Result<Fraction, ParseError>)
    ensures r.Success? <==> numerator.Some? && denominator.Some? && denominator.value != 0
    ensures r.Success? ==> r.value == Fraction(numerator.value, denominator.value)
  {
    if numerator.None? || denominator.None? then Failure(InvalidExpression)
    else if denominator.value == 0 then Failure(ZeroDenominator)
    else Success(Fraction(numerator.value, denominator.value))
  }

  /** The two parts `_ifrac` hands to `std::stoi`. */
  lemma ParseIFracParts(a: string, b: string)
    requires '/' !in a && |a + "/" + b| < NPOS
    ensures ParseIFrac(a + "/" + b) == FromParts(StoI(a), StoI(b))
  {
    var s := a + "/" + b;
    assert s[|a|] == '/';
    assert s[..|a|] == a;
    assert '/' in s;
    assert Find(s, '/') == |a|;
    assert Substr(s, 0, |a|) == a;
    assert s[|a| + 1..] == b;
    assert Substr(s, |a| + 1, NPOS) == b;
  }

  /** Writing `a/b` and reading it back gives `a/b`. */
  lemma ParseIFracRoundTrip(a: int, b: int)
    requires b != 0 && |IntText(a) + "/" + IntText(b)| < NPOS
    ensures ParseIFrac(IntText(a) + "/" + IntText(b)) == Success(Fraction(a, b))
  {
    ParseIFracParts(IntText(a), IntText(b));
    StoIOfIntText(a);
    StoIOfIntText(b);
  }

  /** A zero denominator is refused: `a/0` (the text of 0 is "0"). */
  lemma ParseIFracZeroDenominator(a: int)
    requires |IntText(a) + "/" + IntText(0)| < NPOS
    ensures IntText(0) == "0"
    ensures ParseIFrac(IntText(a) + "/" + IntText(0)) == Failure(ZeroDenominator)
  {
    ParseIFracParts(IntText(a), IntText(0));
    StoIOfIntText(a);
    StoIOfIntText(0);
  }

  /** Without a '/', both parts are the whole text: `v` gives `v/v`. */
  lemma ParseIFracWithoutSlash(s: string)
    requires '/' !in s && |s| < NPOS
    ensures ParseIFrac(s) == FromParts(StoI(s), StoI(s))
    ensures ParseIFrac(s).Success? ==> ParseIFrac(s).value.num == ParseIFrac(s).value.den
  {
    assert Find(s, '/') == NPOS;
    assert Substr(s, 0, NPOS) == s;
  }

  /** A numerator without digits is refused. */
  lemma ParseIFracNonNumeric(a: string, b: string)
    requires '/' !in a && |a + "/" + b| < NPOS
    requires forall i :: 0 <= i < |a| ==> !IsDigit(a[i])
    ensures ParseIFrac(a + "/" + b) == Failure(InvalidExpression)
  {
    ParseIFracParts(a, b);
    StoIWithoutDigits(a);
  }

  /** The literal of frac.hpp:88. */
  lemma ParseIFracExample(expr: string)
    requires expr == "3/2"
    ensures ParseIFrac(expr) == Success(Fraction(3, 2))
  {
    var three, two := IntText(3), IntText(2);
    assert three == "3" && two == "2";
    assert expr == three + "/" + two;
    ParseIFracRoundTrip(3, 2);
  }

  lemma ParseIFracInvalidExample(expr: string)
    requires expr == "x/4"
    ensures ParseIFrac(expr) == Failure(InvalidExpression)
  {
    assert expr == "x" + "/" + "4";
    ParseIFracNonNumeric("x", "4");
  }

  /** A literal without '/' reads the same number twice. */
  lemma ParseIFracWholeExamples()
    ensures ParseIFrac("7") == Success(Fraction(7, 7))
    ensures ParseIFrac("0") == Failure(ZeroDenominator)
  {
    var seven, zero := IntText(7), IntText(0);
    assert seven == "7" && zero == "0";
    StoIOfIntText(7);
    StoIOfIntText(0);
    ParseIFracWithoutSlash(seven);
    ParseIFracWithoutSlash(zero);
  }
}
