/**
 * The number-text helpers of utils.hpp: `reduce_number` on a string, on a
 * whole `int` vector, and `is_number`.
 */
module Utils {
  import opened Wrappers
  import opened StdText

  /**
   * What `reduce_number(std::string)` computes: a trailing '.' is dropped
   * (once, and the loop stops); otherwise trailing '0's are dropped one by
   * one for as long as the text still holds a '.'.
   */
  function Reduced(s: string): (r: string)
    requires |s| > 0
    ensures r <= s
    decreases |s|
  {
    if s[|s| - 1] == '.' then s[..|s| - 1]
    else if s[|s| - 1] != '0' then s
    else if '.' !in s then s
    else Reduced(s[..|s| - 1])
  }

  /** `reduce_number(std::string)`, utils.hpp:5-22: the loop reassigning `number`. */
  method ReduceNumber(s: string) returns (r: string)
    requires |s| > 0
    ensures r == Reduced(s)
  {
    var number := s;
    while true
      invariant |number| > 0 && Reduced(number) == Reduced(s)
      decreases |number|
    {
      if number[|number| - 1] == '.' {
        return number[..|number| - 1];
      }
      if number[|number| - 1] != '0' {
        return number;
      } else {
        if '.' !in number {
          return number;
        } else {
          number := number[..|number| - 1];
        }
      }
    }
  }

  /** A text without '.' is already reduced. */
  lemma ReducedWithoutDot(s: string)
    requires |s| > 0 && '.' !in s
    ensures Reduced(s) == s
  {
  }

  /** A trailing '.' is the only character removed, even if zeros precede it. */
  lemma ReducedTrailingDot(s: string)
    requires |s| > 0 && s[|s| - 1] == '.'
    ensures Reduced(s) == s[..|s| - 1]
  {
  }

  /**
   * With exactly one '.' (at `p`), the result is either the integer part
   * alone or it keeps the '.' and ends in a character that is neither '0'
   * nor '.'.
   */
  lemma {:induction false} ReducedOneDot(s: string, p: nat)
    requires p < |s| && s[p] == '.'
    requires forall i :: 0 <= i < |s| && i != p ==> s[i] != '.'
    ensures var r := Reduced(s);
      r == s[..p] || (p < |r| && r[|r| - 1] != '0' && r[|r| - 1] != '.')
    decreases |s|
  {
    var last := s[|s| - 1];
    if last == '.' {
      assert p == |s| - 1;
    } else if last != '0' {
    } else {
      assert '.' in s;
      var t := s[..|s| - 1];
      assert t[p] == '.';
      ReducedOneDot(t, p);
    }
  }

  /** The text of an `int` is its own reduced form. */
  lemma ReducedIntText(x: int)
    ensures Reduced(IntText(x)) == IntText(x)
  {
    ReducedWithoutDot(IntText(x));
  }

  /** Reading the reduced text of an `int` back gives the same `int`. */
  lemma ReducedNumberParsesBack(x: int)
    ensures StoI(Reduced(IntText(x))) == Some(x)
  {
    ReducedIntText(x);
    StoIOfIntText(x);
  }

  lemma ReducedExamples()
    ensures Reduced("12.500") == "12.5"
    ensures Reduced("100.") == "100"
    ensures Reduced("0.000") == "0"
    ensures Reduced("100") == "100"
  {
    assert Reduced("12.50") == "12.5";
    assert "0.000"[..4] == "0.00" && "0.00"[..3] == "0.0" && "0.0"[..2] == "0.";
    assert Reduced("0.") == "0";
  }

  /**
   * One element of `reduce_number(std::vector<int>&)`, utils.hpp:31-33:
   * `stold(reduce_number(to_string(x)))` cast back to `int`, which for
   * integer text is the exact integer parse `StoI`.
   */
  method ReduceValue(x: int) returns (y: int)
    ensures y == x
  {
    var text := ReduceNumber(IntText(x));
    ReducedNumberParsesBack(x);
    var parsed := StoI(text);
    y := parsed.value;
  }

  /** `reduce_number(std::vector<int>&)`, utils.hpp:29-34: every element reduced in place. */
  method ReduceNumbers(numbers: seq<int>) returns (r: seq<int>)
    ensures r == numbers
  {
    r := numbers;
    var i := 0;
    while i < |r|
      invariant 0 <= i <= |r| && r == numbers
    {
      var y := ReduceValue(r[i]);
      r := r[i := y];
      i := i + 1;
    }
  }

  /** One more character of `s` adds one occurrence of `c` when it is `c`. */
  lemma PrefixCountStep(s: string, i: nat, c: char)
    requires i < |s|
    ensures multiset(s[..i + 1])[c] == multiset(s[..i])[c] + if s[i] == c then 1 else 0
  {
    assert s[..i + 1] == s[..i] + [s[i]];
  }

  /** A prefix holds no more occurrences of `c` than the whole text. */
  lemma PrefixCountBound(s: string, i: nat, c: char)
    requires i <= |s|
    ensures multiset(s[..i])[c] <= multiset(s)[c]
  {
    assert s == s[..i] + s[i..];
  }

  /** The characters `is_number` accepts. */
  const NumberChars: string := "0123456789."

  /**
   * `is_number`, utils.hpp:36-54: every character is a digit or '.', and
   * there is at most one '.'. The empty text is a number.
   */
  method IsNumber(s: string) returns (b: bool)
    ensures b <==> (forall i :: 0 <= i < |s| ==> s[i] in NumberChars) && multiset(s)['.'] <= 1
  {
    var allowed := OnlyNumberChars(s);
    if !allowed {
      return false;
    }
    b := AtMostOneDot(s);
  }

  /** The first loop of `is_number`: is every character one of `NumberChars`? */
  method OnlyNumberChars(s: string) returns (b: bool)
    ensures b <==> forall i :: 0 <= i < |s| ==> s[i] in NumberChars
  {
    var i := 0;
    while i < |s|
      invariant 0 <= i <= |s|
      invariant forall k :: 0 <= k < i ==> s[k] in NumberChars
    {
      if s[i] !in NumberChars {
        return false;
      }
      i := i + 1;
    }
    return true;
  }

  /** The second loop of `is_number`: a second '.' is refused. */
  method AtMostOneDot(s: string) returns (b: bool)
    ensures b <==> multiset(s)['.'] <= 1
  {
    var hasComma := false;
    var i := 0;
    while i < |s|
      invariant 0 <= i <= |s|
      invariant multiset(s[..i])['.'] == if hasComma then 1 else 0
    {
      PrefixCountStep(s, i, '.');
      if s[i] == '.' {
        if hasComma {
          PrefixCountBound(s, i + 1, '.');
          return false;
        }
        hasComma := true;
      }
      i := i + 1;
    }
    assert s[..i] == s;
    return true;
  }
}
