/**
 Java's 32-bit `int` and the two conversions between it and decimal text that
 the form relies on: `Integer.parseInt` (reading the age field) and
 `String.valueOf(int)` (writing a stored age back into the field).
 Only ASCII digits are modelled.
 */
module JavaInt {

  const MinInt: int := -0x8000_0000
  const MaxInt: int := 0x7FFF_FFFF

  /** The values of a Java `int`. */
  type Int32 = x: int | MinInt <= x <= MaxInt

  datatype Option<+T> = None | Some(value: T)

  /** Reduces an unbounded integer to the `int` that Java's wrapping 32-bit
      arithmetic leaves: the one value in range congruent to it modulo 2^32. */
  function Wrap(x: int): (r: Int32)
    ensures (x - r) % 0x1_0000_0000 == 0
    ensures MinInt <= x <= MaxInt ==> r == x
  {
    (x - MinInt) % 0x1_0000_0000 + MinInt
  }

  predicate IsDigit(c: char) {
    '0' <= c <= '9'
  }

  predicate AllDigits(s: string) {
    forall k :: 0 <= k < |s| ==> IsDigit(s[k])
  }

  function DigitValue(c: char): (d: nat)
    requires IsDigit(c)
    ensures d < 10
  {
    c as int - '0' as int
  }

  function DigitChar(d: nat): (c: char)
    requires d < 10
    ensures IsDigit(c) && DigitValue(c) == d
  {
    ('0' as int + d) as char
  }

  /** The number a string of decimal digits denotes, most significant first. */
  function DigitsValue(s: string): nat
    requires AllDigits(s)
  {
    if |s| == 0 then 0 else DigitsValue(s[..|s| - 1]) * 10 + DigitValue(s[|s| - 1])
  }

  /** `Integer.parseInt(s)` in radix 10, as a reference definition: an optional
      '+' or '-', then at least one digit, and the denoted value must fit in an
      `int`. `None` stands for the `NumberFormatException` thrown otherwise. */
  function ParseInt(s: string): Option<Int32> {
    if |s| == 0 then None
    else
      var digits := if s[0] == '-' || s[0] == '+' then s[1..] else s;
      if |digits| == 0 || !AllDigits(digits) then None
      else
        var v := if s[0] == '-' then -(DigitsValue(digits) as int) else DigitsValue(digits);
        if MinInt <= v <= MaxInt then Some(v) else None
  }

  /** Extending a digit string never lowers its value. */
  lemma {:induction false} PrefixValueBound(t: string, j: nat)
    requires AllDigits(t) && j <= |t|
    ensures DigitsValue(t[..j]) <= DigitsValue(t)
    decreases |t|
  {
    if j < |t| {
      var init := t[..|t| - 1];
      assert t[..j] == init[..j];
      PrefixValueBound(init, j);
    } else {
      assert t[..j] == t;
    }
  }

  /** The value of a digit string one character longer than a prefix. */
  lemma ExtendValue(s: string, a: nat, i: nat)
    requires a <= i < |s| && AllDigits(s[a..i]) && IsDigit(s[i])
    ensures AllDigits(s[a..i + 1])
    ensures DigitsValue(s[a..i + 1]) == DigitsValue(s[a..i]) * 10 + DigitValue(s[i])
  {
    assert s[a..i + 1][..i - a] == s[a..i];
    assert forall k :: 0 <= k < i - a ==> s[a..i][k] == s[a..i + 1][k];
  }

  /** Once the digits read so far denote more than `bound`, the whole string
      cannot parse to a value whose magnitude is at most `bound`. */
  lemma TooLargeRejected(s: string, start: nat, i: nat, bound: nat)
    requires start <= 1 && start < |s| && (start == 1 <==> s[0] == '-' || s[0] == '+')
    requires start < i <= |s| && AllDigits(s[start..i])
    requires DigitsValue(s[start..i]) > bound
    requires bound >= MaxInt && (s[0] == '-' ==> bound >= -MinInt)
    ensures ParseInt(s).None?
  {
    var digits := s[start..];
    if AllDigits(digits) {
      assert digits[..i - start] == s[start..i];
      PrefixValueBound(digits, i - start);
    }
  }

  /** The JDK's `Integer.parseInt` loop: it accumulates the negated value
      so that `Integer.MIN_VALUE` is reachable, and rejects overflow before it
      happens, so no intermediate value leaves the `int` range. */
  method ParseIntLoop(s: string) returns (r: Option<Int32>)
    ensures r == ParseInt(s)
  {
    if |s| == 0 {
      return None;
    }
    var i := 0;
    var negative := false;
    var limit := -MaxInt;
    var first := s[0];
    if first < '0' {
      if first == '-' {
        negative := true;
        limit := MinInt;
      } else if first != '+' {
        return None;
      }
      if |s| == 1 {
        return None;
      }
      i := 1;
    }
    ghost var start := i;
    // limit / 10 under Java's division, which truncates toward zero; it is
    // the same for both limits
    var multmin := -214_748_364;
    var result := 0;
    while i < |s|
      invariant start <= i <= |s|
      invariant AllDigits(s[start..i])
      invariant result == -(DigitsValue(s[start..i]) as int)
      invariant limit <= result <= 0
      decreases |s| - i
    {
      var c := s[i];
      var digit := if IsDigit(c) then DigitValue(c) else -1;
      if digit < 0 {
        assert s[start..][i - start] == c;
        return None;
      }
      ExtendValue(s, start, i);
      if result < multmin {
        TooLargeRejected(s, start, i + 1, -limit);
        return None;
      }
      result := result * 10;
      if result < limit + digit {
        TooLargeRejected(s, start, i + 1, -limit);
        return None;
      }
      result := result - digit;
      i := i + 1;
    }
    assert s[start..i] == s[start..];
    r := Some(if negative then result else -result);
  }

  /** The digits of `n` without leading zeros, as `Integer.toString` writes them. */
  function NatToDigits(n: nat): (s: string)
    ensures |s| > 0 && AllDigits(s)
    ensures DigitsValue(s) == n
    ensures |s| > 1 ==> s[0] != '0'
  {
    if n < 10 then [DigitChar(n)]
    else
      var init := NatToDigits(n / 10);
      var s := init + [DigitChar(n % 10)];
      assert s[..|s| - 1] == init;
      s
  }

  /** `String.valueOf(int)`: the digits of the magnitude, after '-' when negative. */
  function IntToString(v: Int32): string {
    if v < 0 then "-" + NatToDigits(-(v as int)) else NatToDigits(v)
  }

  /** Writing an age into the text field and parsing it back gives the age. */
  lemma ParseIntOfToString(v: Int32)
    ensures ParseInt(IntToString(v)) == Some(v)
  {
    var s := IntToString(v);
    if v < 0 {
      assert s[0] == '-' && s[1..] == NatToDigits(-(v as int));
    } else {
      assert IsDigit(s[0]);
    }
  }
}
