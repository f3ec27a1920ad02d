/**
 * The format validators of `RegExp` (isEmpty, isDate, isIdCard, isIP,
 * isPhone, isQQ, isTel, isUsername, isVersion, isZipCode, isPassword).
 *
 * Each validator is one regular expression matched against a string. Here
 * each expression is written out as a predicate over the characters of the
 * string. Anchored expressions (`^…$` without the `m` flag) must match the
 * whole string; `isVersion` is not anchored and may match anywhere.
 */
module Validators {
  import opened JsCore

  // ---------------------------------------------------------------------
  // Digit runs
  // ---------------------------------------------------------------------

  /** A field of digits whose value lies in the given bounds, as `[1-9]\d{m,n}` forces. */
  lemma {:induction false} DigitsBounds(s: string)
    requires AllDigits(s)
    ensures DigitsValue(s) < Pow10(|s|)
    ensures s != [] && s[0] != '0' ==> Pow10(|s| - 1) <= DigitsValue(s)
  {
    if s != [] {
      var init := s[..|s| - 1];
      DigitsBounds(init);
      if init != [] {
        assert init[0] == s[0];
      }
    }
  }

  // ---------------------------------------------------------------------
  // isEmpty: /^\s*$/
  // ---------------------------------------------------------------------

  /** `\s*` consumed one character at a time up to the end of the string. */
  predicate IsEmpty(s: string) {
    s == [] || (IsSpace(s[0]) && IsEmpty(s[1..]))
  }

  /** A string is empty in this sense exactly when every character is white space. */
  lemma {:induction false} IsEmptyAllSpace(s: string)
    ensures IsEmpty(s) <==> forall k :: 0 <= k < |s| ==> IsSpace(s[k])
  {
    if s != [] {
      IsEmptyAllSpace(s[1..]);
      assert forall k :: 1 <= k < |s| ==> s[k] == s[1..][k - 1];
    }
  }

  lemma IsEmptyExamples()
    ensures IsEmpty("") && IsEmpty(" ")
    ensures !IsEmpty(" a")
  {
  }

  // ---------------------------------------------------------------------
  // isDate: /^\d{4}\-\d{1,2}-\d{1,2}$/
  // ---------------------------------------------------------------------

  predicate IsDate(s: string) {
    var y := DigitRun(s, 0);
    y == 4 && y < |s| && s[y] == '-' &&
    var m := DigitRun(s, y + 1);
    1 <= m <= 2 && y + 1 + m < |s| && s[y + 1 + m] == '-' &&
    var d := DigitRun(s, y + 2 + m);
    1 <= d <= 2 && y + 2 + m + d == |s|
  }

  predicate DigitField(f: string, lo: nat, hi: nat) {
    lo <= |f| <= hi && AllDigits(f)
  }

  /** Any year of four digits, month and day of one or two digits, joined by dashes, is a date. */
  lemma DateCompose(y: string, m: string, d: string)
    requires DigitField(y, 4, 4) && DigitField(m, 1, 2) && DigitField(d, 1, 2)
    ensures IsDate(y + "-" + m + "-" + d)
  {
    var s := y + "-" + m + "-" + d;
    DigitRunIs(s, 0, 4);
    DigitRunIs(s, 5, |m|);
    DigitRunIs(s, 6 + |m|, |d|);
  }

  /** A date splits into exactly such a year, month and day; there is no range check on their values. */
  lemma DateParts(s: string) returns (y: string, m: string, d: string)
    requires IsDate(s)
    ensures DigitField(y, 4, 4) && DigitField(m, 1, 2) && DigitField(d, 1, 2)
    ensures s == y + "-" + m + "-" + d
  {
    var mn := DigitRun(s, 5);
    y, m, d := s[..4], s[5..5 + mn], s[6 + mn..];
    assert s == y + "-" + m + "-" + d;
  }

  lemma IsDateExample()
    ensures IsDate("2016-05-19")
  {
    DateCompose("2016", "05", "19");
    assert "2016" + "-" + "05" + "-" + "19" == "2016-05-19";
  }

  lemma IsDateCounterExample()
    ensures !IsDate("2016-05-19 00")
  {
    var s := "2016-05-19 00";
    DigitRunIs(s, 8, 2);
  }

  // ---------------------------------------------------------------------
  // isIdCard: /^\d{14}(\d{4}|(\d{3}[xX])|\d{1})$/
  // ---------------------------------------------------------------------

  predicate IsIdCard(s: string) {
    (|s| == 15 && AllDigits(s))
    || (|s| == 18 && AllDigits(s))
    || (|s| == 18 && AllDigits(s[..17]) && (s[17] == 'x' || s[17] == 'X'))
  }

  /** An identity card number has 15 or 18 characters and every one but the last is a digit. */
  lemma IdCardShape(s: string)
    requires IsIdCard(s)
    ensures |s| == 15 || |s| == 18
    ensures forall k :: 0 <= k < |s| - 1 ==> IsDigit(s[k])
  {
    if |s| == 18 && !AllDigits(s) {
      assert forall k :: 0 <= k < 17 ==> s[k] == s[..17][k];
    }
  }

  lemma IdCardExamples()
    ensures IsIdCard("12345678901234567X") && IsIdCard("000000000000000000")
    ensures !IsIdCard("1234567890123456") && !IsIdCard("0000000000000000000")
  {
    var s := "12345678901234567X";
    assert AllDigits(s[..17]);
  }

  // ---------------------------------------------------------------------
  // isIP: /^((25[0-5]|2[0-4]\d|[01]?\d\d?)\.){3}(25[0-5]|2[0-4]\d|[01]?\d\d?)$/
  // ---------------------------------------------------------------------

  /** One field, as the three alternatives of the expression spell it. */
  predicate Octet(f: string) {
    (|f| == 3 && f[0] == '2' && f[1] == '5' && '0' <= f[2] <= '5')
    || (|f| == 3 && f[0] == '2' && '0' <= f[1] <= '4' && IsDigit(f[2]))
    || (AllDigits(f) && (1 <= |f| <= 2 || (|f| == 3 && (f[0] == '0' || f[0] == '1'))))
  }

  /** The three alternatives together accept exactly the one- to three-digit fields worth at most 255. */
  lemma OctetValue(f: string)
    ensures Octet(f) <==> DigitField(f, 1, 3) && DigitsValue(f) <= 255
  {
    if DigitField(f, 1, 3) {
      assert f[..1][..0] == [];
      assert DigitsValue(f[..1]) == DigitValue(f[0]);
      if |f| >= 2 {
        assert f[..2][..1] == f[..1];
        assert DigitsValue(f[..2]) == 10 * DigitValue(f[0]) + DigitValue(f[1]);
      }
      if |f| == 3 {
        assert DigitsValue(f) == 100 * DigitValue(f[0]) + 10 * DigitValue(f[1]) + DigitValue(f[2]);
      } else if |f| == 2 {
        assert f[..2] == f;
      } else {
        assert f[..1] == f;
      }
    }
  }

  /** `n` more fields start at `i`: an octet, then a dot before each further field, then the end. */
  predicate Fields(s: string, i: nat, n: nat)
    requires i <= |s|
    decreases n
  {
    var r := DigitRun(s, i);
    n >= 1 && Octet(s[i..i + r]) &&
    if n == 1 then i + r == |s|
    else i + r < |s| && s[i + r] == '.' && Fields(s, i + r + 1, n - 1)
  }

  predicate IsIP(s: string) {
    Fields(s, 0, 4)
  }

  /** The same fields, read by their values rather than by the expression's alternatives. */
  predicate ValueFields(s: string, i: nat, n: nat)
    requires i <= |s|
    decreases n
  {
    var r := DigitRun(s, i);
    n >= 1 && 1 <= r <= 3 && DigitsValue(s[i..i + r]) <= 255 &&
    if n == 1 then i + r == |s|
    else i + r < |s| && s[i + r] == '.' && ValueFields(s, i + r + 1, n - 1)
  }

  lemma {:induction false} FieldsValues(s: string, i: nat, n: nat)
    requires i <= |s|
    ensures Fields(s, i, n) <==> ValueFields(s, i, n)
    decreases n
  {
    var r := DigitRun(s, i);
    OctetValue(s[i..i + r]);
    if n > 1 && i + r < |s| {
      FieldsValues(s, i + r + 1, n - 1);
    }
  }

  /** `isIP` holds exactly for four dot-separated fields of 1 to 3 digits, each worth at most 255. */
  lemma IsIPValues(s: string)
    ensures IsIP(s) <==> ValueFields(s, 0, 4)
  {
    FieldsValues(s, 0, 4);
  }

  /** The decimal form of a byte value is a field of one to three digits worth that value. */
  lemma ByteField(v: nat)
    requires v <= 255
    ensures DigitField(NatToString(v), 1, 3) && DigitsValue(NatToString(v)) == v
  {
    NatToStringLength(v, 3);
    NatToStringValue(v);
  }

  /** A dotted field followed by further fields. */
  lemma FieldStep(f: string, rest: string, n: nat)
    requires DigitField(f, 1, 3) && DigitsValue(f) <= 255
    requires ValueFields(rest, 0, n)
    ensures ValueFields(f + "." + rest, 0, n + 1)
  {
    var s := f + "." + rest;
    DigitRunIs(s, 0, |f|);
    assert s[..|f|] == f;
    FieldsShift(f + ".", rest, n);
  }

  /** Fields starting after a prefix are the fields of the rest. */
  lemma {:induction false} FieldsShift(p: string, rest: string, n: nat)
    requires ValueFields(rest, 0, n)
    ensures ValueFields(p + rest, |p|, n)
  {
    ShiftFrom(p, rest, 0, n);
  }

  lemma {:induction false} ShiftFrom(p: string, rest: string, i: nat, n: nat)
    requires i <= |rest|
    requires ValueFields(rest, i, n)
    ensures ValueFields(p + rest, |p| + i, n)
    decreases n
  {
    var r := RunShift(p, rest, i);
    if n > 1 {
      assert (p + rest)[|p| + i + r] == rest[i + r];
      ShiftFrom(p, rest, i + r + 1, n - 1);
    }
  }

  /** A digit run after a prefix is the run of the rest. */
  lemma RunShift(p: string, rest: string, i: nat) returns (r: nat)
    requires i <= |rest|
    ensures r == DigitRun(rest, i) == DigitRun(p + rest, |p| + i)
    ensures (p + rest)[|p| + i..|p| + i + r] == rest[i..i + r]
  {
    var s := p + rest;
    r := DigitRun(rest, i);
    assert forall k :: 0 <= k < |rest| ==> s[|p| + k] == rest[k];
    DigitRunIs(s, |p| + i, r);
    assert s[|p| + i..|p| + i + r] == rest[i..i + r];
  }

  /** Every dotted quad of byte values written in decimal is accepted. */
  lemma DottedQuad(a: nat, b: nat, c: nat, d: nat)
    requires a <= 255 && b <= 255 && c <= 255 && d <= 255
    ensures IsIP(NatToString(a) + "." + NatToString(b) + "." + NatToString(c) + "." + NatToString(d))
  {
    ByteField(a);
    ByteField(b);
    ByteField(c);
    ByteField(d);
    FieldsQuad(NatToString(a), NatToString(b), NatToString(c), NatToString(d));
  }

  lemma FieldsQuad(sa: string, sb: string, sc: string, sd: string)
    requires DigitField(sa, 1, 3) && DigitsValue(sa) <= 255
    requires DigitField(sb, 1, 3) && DigitsValue(sb) <= 255
    requires DigitField(sc, 1, 3) && DigitsValue(sc) <= 255
    requires DigitField(sd, 1, 3) && DigitsValue(sd) <= 255
    ensures IsIP(sa + "." + sb + "." + sc + "." + sd)
  {
    var t1 := sd;
    LastField(t1);
    var t2 := sc + "." + t1;
    FieldStep(sc, t1, 1);
    var t3 := sb + "." + t2;
    FieldStep(sb, t2, 2);
    var t4 := sa + "." + t3;
    FieldStep(sa, t3, 3);
    DotsAssociate(sa, sb, sc, sd);
    IsIPValues(t4);
  }

  lemma LastField(f: string)
    requires DigitField(f, 1, 3) && DigitsValue(f) <= 255
    ensures ValueFields(f, 0, 1)
  {
    DigitRunIs(f, 0, |f|);
    assert f[0..|f|] == f;
  }

  lemma DotsAssociate(a: string, b: string, c: string, d: string)
    ensures a + "." + (b + "." + (c + "." + d)) == a + "." + b + "." + c + "." + d
  {
  }

  lemma IsIPExample()
    ensures IsIP("127.0.0.1")
  {
    DottedQuad(127, 0, 0, 1);
    assert NatToString(127) == "127";
    assert "127" + "." + "0" + "." + "0" + "." + "1" == "127.0.0.1";
  }

  lemma IsIPCounterExample()
    ensures !IsIP("256.0.0.1")
  {
    var s := "256.0.0.1";
    DigitRunIs(s, 0, 3);
  }

  // ---------------------------------------------------------------------
  // isPhone: /^(13|14|15|17|18)\d{9}$/
  // isQQ: /^[1-9]\d{4,10}$/
  // isZipCode: /^[1-9]\d{5}(?!\d)$/
  // ---------------------------------------------------------------------

  predicate IsPhone(s: string) {
    |s| == 11 && AllDigits(s) && s[0] == '1' && s[1] in "34578"
  }

  predicate IsQQ(s: string) {
    5 <= |s| <= 11 && AllDigits(s) && s[0] != '0'
  }

  /** The look-ahead `(?!\d)` before the end adds nothing: six digits, the first not zero. */
  predicate IsZipCode(s: string) {
    |s| == 6 && AllDigits(s) && s[0] != '0'
  }

  /** A QQ number is worth between 10^4 and 10^11 - 1. */
  lemma QQRange(s: string)
    requires IsQQ(s)
    ensures Pow10(4) <= DigitsValue(s) < Pow10(11)
  {
    DigitsBounds(s);
    PowMonotone(4, |s| - 1);
    PowMonotone(|s|, 11);
  }

  /** A zip code is worth between 100000 and 999999. */
  lemma ZipCodeRange(s: string)
    requires IsZipCode(s)
    ensures 100000 <= DigitsValue(s) <= 999999
  {
    DigitsBounds(s);
    assert Pow10(5) == 100000;
  }

  lemma {:induction false} PowMonotone(a: nat, b: nat)
    requires a <= b
    ensures Pow10(a) <= Pow10(b)
    decreases b
  {
    if a < b {
      PowMonotone(a, b - 1);
    }
  }

  /** Mobile numbers and zip codes are accepted as QQ numbers too. */
  lemma PhoneAndZipAreQQ(s: string)
    ensures IsPhone(s) ==> IsQQ(s)
    ensures IsZipCode(s) ==> IsQQ(s)
  {
  }

  lemma PhoneExamples()
    ensures IsPhone("13800138000")
    ensures !IsPhone("12800138000") && !IsPhone("013800138000") && !IsPhone("800138000")
  {
  }

  lemma ZipCodeExamples()
    ensures IsZipCode("518000")
    ensures !IsZipCode("5180001") && !IsZipCode("018000")
  {
  }

  lemma QQExamples()
    ensures IsQQ("10001") && !IsQQ("1000") && !IsQQ("01000")
  {
  }

  // ---------------------------------------------------------------------
  // isTel: /^\d{3,4}-\d{7,8}$/
  // ---------------------------------------------------------------------

  predicate IsTel(s: string) {
    var a := DigitRun(s, 0);
    3 <= a <= 4 && a < |s| && s[a] == '-' &&
    var b := DigitRun(s, a + 1);
    7 <= b <= 8 && a + 1 + b == |s|
  }

  /** An area code of 3 or 4 digits and a number of 7 or 8 digits joined by a dash form a telephone number. */
  lemma TelCompose(area: string, number: string)
    requires DigitField(area, 3, 4) && DigitField(number, 7, 8)
    ensures IsTel(area + "-" + number)
  {
    var s := area + "-" + number;
    DigitRunIs(s, 0, |area|);
    DigitRunIs(s, |area| + 1, |number|);
  }

  /** A telephone number splits into exactly such an area code and number. */
  lemma TelParts(s: string) returns (area: string, number: string)
    requires IsTel(s)
    ensures DigitField(area, 3, 4) && DigitField(number, 7, 8)
    ensures s == area + "-" + number
  {
    var a := DigitRun(s, 0);
    area, number := s[..a], s[a + 1..];
    assert s == area + "-" + number;
  }

  lemma TelExamples()
    ensures IsTel("010-12345678") && !IsTel("12345678")
  {
    TelCompose("010", "12345678");
    DigitRunIs("12345678", 0, 8);
  }

  // ---------------------------------------------------------------------
  // isUsername: /^[a-zA-Z][a-zA-Z0-9_]{4,15}$/
  // isPassword, weak: /^[a-zA-Z]\w{5,17}$/
  // ---------------------------------------------------------------------

  predicate LetterThenWord(s: string) {
    s != [] && IsAsciiLetter(s[0]) && forall k :: 1 <= k < |s| ==> IsWordChar(s[k])
  }

  predicate IsUsername(s: string) {
    5 <= |s| <= 16 && LetterThenWord(s)
  }

  predicate IsWeakPassword(s: string) {
    6 <= |s| <= 18 && LetterThenWord(s)
  }

  /** A user name of at least six characters is also acceptable as a weak password. */
  lemma UsernameIsWeakPassword(s: string)
    requires IsUsername(s) && |s| >= 6
    ensures IsWeakPassword(s)
  {
  }

  lemma UsernameExamples()
    ensures IsUsername("abc_123") && !IsUsername("abc-123") && !IsUsername("1admin")
  {
    assert "abc-123"[3] == '-' && !IsWordChar('-');
  }

  // ---------------------------------------------------------------------
  // isPassword, strong: /^(?=.*\d)(?=.*[a-z])(?=.*[A-Z]).{8,10}$/i
  // ---------------------------------------------------------------------

  predicate HasDigit(s: string) {
    exists k :: 0 <= k < |s| && IsDigit(s[k])
  }

  predicate HasLetter(s: string) {
    exists k :: 0 <= k < |s| && IsAsciiLetter(s[k])
  }

  /**
   * The strong form as written. `.` excludes line terminators, so the whole
   * string is 8 to 10 such characters. Under the `i` flag both `[a-z]` and
   * `[A-Z]` match any ASCII letter, so the two look-aheads ask for one letter.
   */
  predicate IsStrongPassword(s: string) {
    8 <= |s| <= 10 && (forall k :: 0 <= k < |s| ==> !IsLineTerminator(s[k]))
    && HasDigit(s) && HasLetter(s)
  }


  /**
   * The strong form accepts a password without any capital letter, although
   * it is documented to require both cases.
   */
  lemma StrongAcceptsLowerCaseOnly()
    ensures IsStrongPassword("abcd1234")
    ensures !HasUpper("abcd1234")
  {
    assert IsDigit("abcd1234"[4]) && IsAsciiLetter("abcd1234"[0]);
  }

  predicate HasUpper(s: string) {
    exists k :: 0 <= k < |s| && 'A' <= s[k] <= 'Z'
  }

  predicate HasLower(s: string) {
    exists k :: 0 <= k < |s| && 'a' <= s[k] <= 'z'
  }

  /**
   * The strong form as documented: 8 to 10 letters and digits with at least
   * one digit, one lower-case and one upper-case letter.
   */
  predicate IsStrongPasswordIntended(s: string) {
    8 <= |s| <= 10 && (forall k :: 0 <= k < |s| ==> IsAsciiLetter(s[k]) || IsDigit(s[k]))
    && HasDigit(s) && HasLower(s) && HasUpper(s)
  }

  /** The documented form is stricter than the one written, and rejects the all-lower-case password. */
  lemma IntendedStrongPassword(s: string)
    ensures IsStrongPasswordIntended(s) ==> IsStrongPassword(s)
    ensures !IsStrongPasswordIntended("abcd1234")
  {
    if IsStrongPasswordIntended(s) {
      var k :| 0 <= k < |s| && 'a' <= s[k] <= 'z';
      assert IsAsciiLetter(s[k]);
    }
  }

  /**
   * `isPassword(value, strong)`: the strong form as written (`IsStrongPassword`),
   * the weak form `/^[a-zA-Z]\w{5,17}$/`.
   */
  function IsPassword(s: string, strong: bool): (r: bool)
    ensures strong ==> (r <==> (8 <= |s| <= 10 && (forall k :: 0 <= k < |s| ==> !IsLineTerminator(s[k]))
                                && HasDigit(s) && HasLetter(s)))
    ensures !strong ==> (r <==> (6 <= |s| <= 18 && IsAsciiLetter(s[0])
                                 && forall k :: 1 <= k < |s| ==> IsWordChar(s[k])))
  {
    if strong then IsStrongPassword(s) else IsWeakPassword(s)
  }

  /** The documented examples, and the all-lower-case password the strong form lets through. */
  lemma PasswordExamples()
    ensures IsPassword("abc123", false) && IsPassword("Abcd1234", false)
    ensures !IsPassword("abc123", true) && IsPassword("Abcd1234", true)
    ensures IsPassword("abcd1234", true)
  {
    StrongAcceptsLowerCaseOnly();
    assert IsDigit("Abcd1234"[4]) && IsAsciiLetter("Abcd1234"[0]);
  }

  // ---------------------------------------------------------------------
  // isVersion: /\d+(\.\d+)+/ (not anchored)
  // ---------------------------------------------------------------------

  /**
   * A match needs one digit, a dot and one digit somewhere; any longer match
   * contains such a place, and `\d+` and `\.\d+` can always stop there.
   */
  predicate IsVersion(s: string) {
    exists k :: 0 <= k && k + 2 < |s| && IsDigit(s[k]) && s[k + 1] == '.' && IsDigit(s[k + 2])
  }

  /** Being unanchored, a version found in part of a string is found in the whole. */
  lemma VersionInside(a: string, v: string, b: string)
    requires IsVersion(v)
    ensures IsVersion(a + v + b)
  {
    var k :| 0 <= k && k + 2 < |v| && IsDigit(v[k]) && v[k + 1] == '.' && IsDigit(v[k + 2]);
    var s := a + v + b;
    assert s[|a| + k] == v[k] && s[|a| + k + 1] == v[k + 1] && s[|a| + k + 2] == v[k + 2];
  }

  /** A string without a dot is never a version. */
  lemma VersionNeedsDot(s: string)
    requires '.' !in s
    ensures !IsVersion(s)
  {
  }

  lemma VersionExamples()
    ensures IsVersion("3.8.2") && !IsVersion("382")
  {
    var s := "3.8.2";
    assert IsDigit(s[0]) && s[1] == '.' && IsDigit(s[2]);
  }
}
