/**
 * The Number helpers of src/polyfill/Number.js: `Number.toInt`,
 * `withZero` and `splitPow`.
 *
 * Numbers are integers here; `toString` is the decimal form of
 * `JsCore.IntToString` and `toString(2)` the binary form below.
 */
module NumberExt {
  import opened Wrappers
  import opened JsCore

  // ---------------------------------------------------------------------
  // Number.toInt: parseInt, with NaN read as 0
  // ---------------------------------------------------------------------

  predicate IsHexDigit(c: char) {
    IsDigit(c) || 'a' <= c <= 'f' || 'A' <= c <= 'F'
  }

  function HexDigitValue(c: char): (d: nat)
    requires IsHexDigit(c)
    ensures d < 16
  {
    if IsDigit(c) then DigitValue(c)
    else if 'a' <= c <= 'f' then c as int - 'a' as int + 10
    else c as int - 'A' as int + 10
  }

  /** The number of consecutive hexadecimal digits at the start of `s`. */
  function HexRun(s: string): (n: nat)
    ensures n <= |s|
    ensures forall k :: 0 <= k < n ==> IsHexDigit(s[k])
    ensures n == |s| || !IsHexDigit(s[n])
  {
    if s != [] && IsHexDigit(s[0]) then 1 + HexRun(s[1..]) else 0
  }

  /** The value of a string of hexadecimal digits, most significant first. */
  function HexValue(s: string): nat
    requires forall k :: 0 <= k < |s| ==> IsHexDigit(s[k])
  {
    if s == [] then 0 else 16 * HexValue(s[..|s| - 1]) + HexDigitValue(s[|s| - 1])
  }

  /**
   * `parseInt(s)` with no radix: leading white space is skipped, one sign is
   * read, and the digits after it are read by `ParseDigits`. `None` is NaN.
   * A negative zero is the integer 0 here.
   */
  function ParseInt(s: string): (r: Option<int>)
  {
    var t := TrimStart(s);
    if t != [] && t[0] == '-' then
      match ParseDigits(t[1..])
      case None => None
      case Some(v) => Some(-(v as int))
    else if t != [] && t[0] == '+' then ParseDigits(t[1..])
    else ParseDigits(t)
  }

  /**
   * The unsigned part of `parseInt`: a `0x`/`0X` prefix selects base 16, and
   * the longest block of digits of the base that follows gives the value;
   * `None` when there is no such digit.
   */
  function ParseDigits(u: string): (r: Option<nat>)
  {
    if |u| >= 2 && u[0] == '0' && (u[1] == 'x' || u[1] == 'X') then
      var h := HexRun(u[2..]);
      if h == 0 then None else Some(HexValue(u[2..][..h]))
    else
      var d := DigitRun(u, 0);
      if d == 0 then None
      else
        assert AllDigits(u[..d]) by {
          assert forall k :: 0 <= k < d ==> u[..d][k] == u[k];
        }
        Some(DigitsValue(u[..d]))
  }

  /** Decimal digits followed by anything that cannot continue them read as their value. */
  lemma ParseDecimal(digits: string, rest: string)
    requires digits != [] && AllDigits(digits)
    requires rest == [] || (!IsDigit(rest[0]) && rest[0] != 'x' && rest[0] != 'X')
    ensures ParseDigits(digits + rest) == Some(DigitsValue(digits))
  {
    var u := digits + rest;
    DigitRunIs(u, 0, |digits|);
    assert u[..|digits|] == digits;
    if |u| >= 2 && u[0] == '0' {
      assert u[1] == if |digits| >= 2 then digits[1] else rest[0];
    }
  }

  /** `Number.toInt(num)`: the value `parseInt` reads, or 0 where it gives NaN. */
  function ToInt(s: string): int {
    match ParseInt(s)
    case None => 0
    case Some(v) => v
  }

  /** Text that starts with neither white space nor a sign is read by `ParseDigits` alone. */
  lemma ParseUnsigned(t: string)
    requires t == [] || (!IsSpace(t[0]) && t[0] != '-' && t[0] != '+')
    ensures ParseInt(t) == ParseDigits(t)
  {
    assert TrimStart(t) == t;
  }

  /** A minus sign negates the digits after it. */
  lemma ParseNegative(t: string, v: nat)
    requires t != [] && t[0] == '-' && ParseDigits(t[1..]) == Some(v)
    ensures ParseInt(t) == Some(-(v as int))
  {
    assert TrimStart(t) == t;
  }

  /** Reading back the decimal form of an integer gives the integer. */
  lemma ToIntRoundTrip(n: int)
    ensures ToInt(IntToString(n)) == n
  {
    var m: nat := if n < 0 then -n else n;
    var digits := NatToString(m);
    NatToStringValue(m);
    ParseDecimal(digits, []);
    assert digits + [] == digits;
    if n < 0 {
      var t := IntToString(n);
      assert t[1..] == digits;
      ParseNegative(t, m);
    } else {
      ParseUnsigned(digits);
    }
  }

  /** A string of decimal digits reads as its value, whatever non-digit follows. */
  lemma ToIntDigits(digits: string, rest: string)
    requires digits != [] && AllDigits(digits)
    requires rest == [] || (!IsDigit(rest[0]) && rest[0] != 'x' && rest[0] != 'X')
    ensures ToInt(digits + rest) == DigitsValue(digits)
  {
    ParseDecimal(digits, rest);
    assert (digits + rest)[0] == digits[0];
    ParseUnsigned(digits + rest);
  }

  /** A string that starts with neither white space, a sign nor a digit reads as 0. */
  lemma ToIntNotNumeric(s: string)
    requires s != [] && !IsSpace(s[0]) && !IsDigit(s[0]) && s[0] != '-' && s[0] != '+'
    ensures ToInt(s) == 0
  {
    ParseUnsigned(s);
  }

  /** A whole string of decimal digits reads as its value. */
  lemma ToIntAllDigits(digits: string)
    requires digits != [] && AllDigits(digits)
    ensures ToInt(digits) == DigitsValue(digits)
  {
    ToIntDigits(digits, []);
    assert digits + [] == digits;
  }

  lemma ToIntExamples(one: string, two: string)
    requires one == "1" && two == "2"
    ensures ToInt(one) + ToInt(two) == 3
  {
    ToIntAllDigits(one);
    ToIntAllDigits(two);
  }

  lemma ToIntNotANumberExample(a: string)
    requires a == "a"
    ensures ToInt(a) == 0
  {
    ToIntNotNumeric(a);
  }

  // ---------------------------------------------------------------------
  // withZero: prepend '0' until the length is reached
  // ---------------------------------------------------------------------

  /** `s` padded on the left with zeros to at least `length` characters. */
  function Padded(s: string, length: int): string {
    Repeat('0', if length > |s| then length - |s| else 0) + s
  }

  /** `n.withZero(length)` */
  method WithZero(n: int, length: int) returns (str: string)
    ensures str == Padded(IntToString(n), length)
  {
    str := IntToString(n);
    ghost var s := str;
    while |str| < length
      invariant |s| <= |str|
      invariant str == Repeat('0', |str| - |s|) + s
      invariant |str| > |s| ==> |str| <= length
      decreases length - |str|
    {
      str := "0" + str;
    }
  }

  /** The padded form is exactly `max(length, |s|)` long and ends with `s`. */
  lemma PaddedShape(s: string, length: int)
    ensures |Padded(s, length)| == if length > |s| then length else |s|
    ensures Padded(s, length)[|Padded(s, length)| - |s|..] == s
  {
  }

  /** A string already `length` long or longer is returned unchanged. */
  lemma PaddedLongEnough(s: string, length: int)
    requires |s| >= length
    ensures Padded(s, length) == s
  {
    assert Repeat('0', 0) + s == s;
  }

  /** Leading zeros do not change the value of a string of digits. */
  lemma {:induction false} ZerosKeepValue(k: nat, s: string)
    requires AllDigits(s)
    ensures AllDigits(Repeat('0', k) + s) && DigitsValue(Repeat('0', k) + s) == DigitsValue(s)
    decreases |s|
  {
    var t := Repeat('0', k) + s;
    if s == [] {
      ZerosValue(k);
      assert t == Repeat('0', k);
    } else {
      ZerosKeepValue(k, s[..|s| - 1]);
      assert t[..|t| - 1] == Repeat('0', k) + s[..|s| - 1];
    }
  }

  lemma {:induction false} ZerosValue(k: nat)
    ensures AllDigits(Repeat('0', k)) && DigitsValue(Repeat('0', k)) == 0
  {
    if k > 0 {
      ZerosValue(k - 1);
      assert Repeat('0', k)[..k - 1] == Repeat('0', k - 1);
    }
  }

  /** Padding a non-negative number keeps its value. */
  lemma PaddedValue(n: nat, length: int)
    ensures AllDigits(Padded(NatToString(n), length))
    ensures DigitsValue(Padded(NatToString(n), length)) == n
  {
    NatToStringValue(n);
    ZerosKeepValue(if length > |NatToString(n)| then length - |NatToString(n)| else 0, NatToString(n));
  }

  lemma WithZeroExample()
    ensures Padded(IntToString(7), 3) == "007"
  {
    assert IntToString(7) == "7";
    assert Repeat('0', 2) == "00";
  }

  // ---------------------------------------------------------------------
  // splitPow: one power of two per binary digit
  // ---------------------------------------------------------------------

  /** `n.toString(2)` for a positive integer. */
  function Binary(n: nat): (b: string)
    requires n > 0
    ensures |b| >= 1 && b[0] == '1'
  {
    if n == 1 then "1" else Binary(n / 2) + [if n % 2 == 0 then '0' else '1']
  }

  /** A positive number lies between the powers of two its binary length names. */
  lemma {:induction false} BinaryBounds(n: nat)
    requires n > 0
    ensures Pow2(|Binary(n)| - 1) <= n < Pow2(|Binary(n)|)
  {
    if n > 1 {
      BinaryBounds(n / 2);
    }
  }

  /** `[2^(L-1), ..., 2, 1]` */
  function Powers(L: nat): (p: seq<nat>)
    ensures |p| == L
  {
    seq(L, i requires 0 <= i < L => Pow2(L - i - 1))
  }

  /** What `n.splitPow()` returns. */
  function SplitPowSpec(n: int): seq<nat> {
    if n <= 0 then [] else Powers(|Binary(n)|)
  }

  /** `n.splitPow()`: the digits of `n.toString(2)` overwritten one by one. */
  method SplitPow(n: int) returns (r: seq<nat>)
    ensures r == SplitPowSpec(n)
  {
    if n <= 0 {
      return [];
    }
    var digits := Binary(n);
    var count := |digits|;
    var numbers := new nat[count](i requires 0 <= i < count => if digits[i] == '1' then 1 else 0);
    for i := 0 to count
      invariant forall k :: 0 <= k < i ==> numbers[k] == Pow2(count - k - 1)
    {
      numbers[i] := Pow2(count - i - 1);
    }
    r := numbers[..];
  }

  function Sum(s: seq<nat>): nat {
    if s == [] then 0 else s[0] + Sum(s[1..])
  }

  /** The powers add up to `2^L - 1`: every bit set. */
  lemma {:induction false} PowersSum(L: nat)
    ensures Sum(Powers(L)) == Pow2(L) - 1
  {
    if L > 0 {
      PowersSum(L - 1);
      assert Powers(L)[1..] == Powers(L - 1);
    }
  }

  /** For a positive `n` the first entry is the largest power of two not above `n`. */
  lemma SplitPowFirst(n: int)
    requires n > 0
    ensures SplitPowSpec(n) != []
    ensures SplitPowSpec(n)[0] <= n < 2 * SplitPowSpec(n)[0]
  {
    BinaryBounds(n);
  }

  /** Nothing is returned for zero and negative numbers. */
  lemma SplitPowNonPositive(n: int)
    requires n <= 0
    ensures SplitPowSpec(n) == []
  {
  }

  lemma SplitPowExample()
    ensures SplitPowSpec(15) == [8, 4, 2, 1]
  {
    assert Binary(3) == Binary(1) + "1";
    assert Binary(7) == Binary(3) + "1";
    assert |Binary(15)| == |Binary(7)| + 1 == 4;
    assert Pow2(3) == 8 && Pow2(2) == 4 && Pow2(1) == 2 && Pow2(0) == 1;
  }
}
