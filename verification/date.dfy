/**
 * The Date helpers of src/polyfill/Date.js: `format`, `isLeapYear`,
 * `Date.getAge`, `diff` and `toCNDate`.
 *
 * A date is given by the values its getters return in the local time zone
 * (`getFullYear`, the zero-based `getMonth`, `getDate`, `getHours`,
 * `getMinutes`, `getSeconds`, `getMilliseconds`, `getDay`) together with its
 * time value in milliseconds. Parsing date strings, the clock and the time
 * zone are outside the model: these values are inputs.
 */
module DateExt {
  import opened Wrappers
  import opened JsCore
  import NumberExt

  datatype DateValue = DateValue(
    year: int, month: int, day: int,
    hours: int, minutes: int, seconds: int, millis: int,
    weekday: int, time: int)

  /** The ranges the getters of a JavaScript `Date` return. */
  predicate Valid(d: DateValue) {
    0 <= d.month <= 11 && 1 <= d.day <= 31 && 0 <= d.hours <= 23 && 0 <= d.minutes <= 59
    && 0 <= d.seconds <= 59 && 0 <= d.millis <= 999 && 0 <= d.weekday <= 6
  }

  // ---------------------------------------------------------------------
  // format
  // ---------------------------------------------------------------------

  /** `str.substr(start)` */
  function Substr(str: string, start: int): (r: string)
    ensures |r| <= |str| && r == str[|str| - |r|..]
    ensures 0 <= start <= |str| ==> |r| == |str| - start
  {
    var b := if start >= 0 then start else if |str| + start > 0 then |str| + start else 0;
    if b >= |str| then [] else str[b..]
  }

  /** The first run of characters from `cs`, as `(index, length)`: where `/(c+)/` matches first. */
  function FirstRun(s: string, cs: set<char>): (r: Option<(nat, nat)>)
    ensures r.None? <==> forall k :: 0 <= k < |s| ==> s[k] !in cs
    ensures r.Some? ==> var (i, n) := r.value;
      1 <= n && i + n <= |s| && (forall k :: 0 <= k < i ==> s[k] !in cs)
      && (forall k :: i <= k < i + n ==> s[k] in cs) && (i + n == |s| || s[i + n] !in cs)
  {
    if s == [] then None
    else if s[0] in cs then Some((0, RunIn(s, cs, 0)))
    else match FirstRun(s[1..], cs)
      case None => None
      case Some((i, n)) => Some((i + 1, n))
  }

  /** The number of consecutive characters from `cs` starting at `i`. */
  function RunIn(s: string, cs: set<char>, i: nat): (n: nat)
    requires i <= |s|
    ensures i + n <= |s| && (forall k :: i <= k < i + n ==> s[k] in cs)
    ensures i + n == |s| || s[i + n] !in cs
    decreases |s| - i
  {
    if i < |s| && s[i] in cs then 1 + RunIn(s, cs, i + 1) else 0
  }

  /** `s` with the `n` characters at `i` replaced by `text`. */
  function Splice(s: string, i: nat, n: nat, text: string): (r: string)
    requires i + n <= |s|
    ensures |r| == |s| - n + |text|
  {
    s[..i] + text + s[i + n..]
  }

  /** The year for a run of `n` `y`s: `(year + '').substr(4 - n)`. */
  function YearText(year: int, n: nat): string {
    Substr(IntToString(year), 4 - n)
  }

  /** The name of a week day, `undefined` for a key outside the table. */
  function WeekName(day: int): string {
    if day == 0 then [0x65E5 as char]
    else if day == 1 then [0x4E00 as char]
    else if day == 2 then [0x4E8C as char]
    else if day == 3 then [0x4E09 as char]
    else if day == 4 then [0x56DB as char]
    else if day == 5 then [0x4E94 as char]
    else if day == 6 then [0x516D as char]
    else "undefined"
  }

  /** The week day for a run of `n` `E`s: a prefix for two or more, then the day's name. */
  function WeekText(day: int, n: nat): string {
    (if n > 1 then (if n > 2 then [0x661F as char, 0x671F as char] else [0x5468 as char]) else [])
    + WeekName(day)
  }

  /** A field for a run of `n` letters: unpadded for one, else the last two characters of `'00' + value`. */
  function FieldText(v: int, n: nat): string {
    if n == 1 then IntToString(v) else Substr("00" + IntToString(v), |IntToString(v)|)
  }

  /** `Math.floor((month + 3) / 3)` */
  function Quarter(month: int): int {
    (month + 3) / 3
  }

  /** The table of one-field tokens, in the order `for..in` visits them. */
  function Table(d: DateValue): seq<(char, int)> {
    [('M', d.month + 1), ('d', d.day), ('h', d.hours), ('m', d.minutes),
     ('s', d.seconds), ('q', Quarter(d.month)), ('S', d.millis)]
  }

  /**
   * `/(y+)/i` then `format.replace(RegExp.$1, …)`: a string pattern is
   * replaced at its first occurrence, which is the first run itself.
   */
  function ApplyYear(d: DateValue, s: string): string {
    match FirstRun(s, {'y', 'Y'})
    case None => s
    case Some((i, n)) => Splice(s, i, n, YearText(d.year, n))
  }

  function ApplyWeek(d: DateValue, s: string): string {
    match FirstRun(s, {'E'})
    case None => s
    case Some((i, n)) => Splice(s, i, n, WeekText(d.weekday, n))
  }

  function ApplyField(s: string, token: (char, int)): string {
    match FirstRun(s, {token.0})
    case None => s
    case Some((i, n)) => Splice(s, i, n, FieldText(token.1, n))
  }

  function ApplyFields(s: string, table: seq<(char, int)>): string
    decreases |table|
  {
    if table == [] then s else ApplyFields(ApplyField(s, table[0]), table[1..])
  }

  /** What `date.format(format)` returns. */
  function FormatSpec(d: DateValue, format: string): string {
    ApplyFields(ApplyWeek(d, ApplyYear(d, format)), Table(d))
  }

  /** `date.format(format)`: the year, then the week day, then each token of the table in turn. */
  method Format(d: DateValue, format0: string) returns (format: string)
    ensures format == FormatSpec(d, format0)
  {
    format := ApplyYear(d, format0);
    format := ApplyWeek(d, format);
    var table := Table(d);
    for k := 0 to |table|
      invariant ApplyFields(format, table[k..]) == FormatSpec(d, format0)
    {
      assert table[k..][1..] == table[k + 1..];
      format := ApplyField(format, table[k]);
    }
  }

  /** The quarter of a zero-based month is 1 to 4, three months each. */
  lemma QuarterOfMonth(month: int)
    requires 0 <= month <= 11
    ensures 1 <= Quarter(month) <= 4
    ensures 3 * (Quarter(month) - 1) <= month < 3 * Quarter(month)
  {
  }

  /** For a four-digit year, a run of one to four `y`s prints the last that many digits. */
  lemma YearTextDigits(year: int, n: nat)
    requires 1000 <= year <= 9999 && 1 <= n <= 4
    ensures |IntToString(year)| == 4
    ensures YearText(year, n) == IntToString(year)[4 - n..]
  {
    NatToStringLength(year, 4);
    NatToStringLongEnough(year, 3);
  }

  /** A number of at least `10^k` has more than `k` digits. */
  lemma {:induction false} NatToStringLongEnough(n: nat, k: nat)
    requires n >= Pow10(k)
    ensures |NatToString(n)| >= k + 1
  {
    if k > 0 {
      NatToStringLongEnough(n / 10, k - 1);
    }
  }

  /** A run of two or more letters prints two characters: the value zero-padded when below 100. */
  lemma FieldTextPadded(v: nat, n: nat)
    requires n >= 2
    ensures |FieldText(v, n)| == 2
    ensures v < 100 ==> AllDigits(FieldText(v, n)) && DigitsValue(FieldText(v, n)) == v
  {
    var str := NatToString(v);
    if v < 100 {
      NatToStringLength(v, 2);
      NumberExt.PaddedValue(v, 2);
      assert FieldText(v, n) == NumberExt.Padded(str, 2) by {
        if |str| == 1 {
          assert ("00" + str)[1..] == Repeat('0', 1) + str;
        } else {
          assert ("00" + str)[2..] == Repeat('0', 0) + str;
        }
      }
    }
  }

  /** A token is replaced at its first run only; any later run stays. */
  lemma OnlyFirstRunExample()
    ensures ApplyField("MM/MM", ('M', 7)) == "07/MM"
  {
    var s := "MM/MM";
    assert FirstRun(s, {'M'}) == Some((0, 2)) by {
      assert RunIn(s, {'M'}, 2) == 0;
    }
    assert IntToString(7) == "7";
  }

  /** The characters `format` treats as tokens. */
  const TokenChars: set<char> := {'y', 'Y', 'E', 'M', 'd', 'h', 'm', 's', 'q', 'S'}

  /** A format without token characters is returned unchanged. */
  lemma FormatPlain(d: DateValue, format: string)
    requires forall k :: 0 <= k < |format| ==> format[k] !in TokenChars
    ensures FormatSpec(d, format) == format
  {
    assert FirstRun(format, {'y', 'Y'}).None?;
    assert FirstRun(format, {'E'}).None?;
    ApplyFieldsNone(format, Table(d));
  }

  lemma {:induction false} ApplyFieldsNone(s: string, table: seq<(char, int)>)
    requires forall j :: 0 <= j < |table| ==> table[j].0 !in s
    ensures ApplyFields(s, table) == s
    decreases |table|
  {
    if table != [] {
      assert FirstRun(s, {table[0].0}).None?;
      ApplyFieldsNone(s, table[1..]);
    }
  }

  /** The first run is determined by where it starts and where it stops. */
  lemma {:induction false} FirstRunIs(s: string, cs: set<char>, i: nat, n: nat)
    requires 1 <= n && i + n <= |s|
    requires forall k :: 0 <= k < i ==> s[k] !in cs
    requires forall k :: i <= k < i + n ==> s[k] in cs
    requires i + n == |s| || s[i + n] !in cs
    ensures FirstRun(s, cs) == Some((i, n))
    decreases i
  {
    if i == 0 {
      RunInIs(s, cs, 0, n);
    } else {
      FirstRunIs(s[1..], cs, i - 1, n);
    }
  }

  lemma {:induction false} RunInIs(s: string, cs: set<char>, i: nat, n: nat)
    requires i + n <= |s|
    requires forall k :: i <= k < i + n ==> s[k] in cs
    requires i + n == |s| || s[i + n] !in cs
    ensures RunIn(s, cs, i) == n
    decreases n
  {
    if n > 0 {
      RunInIs(s, cs, i + 1, n - 1);
    }
  }

  /** Tokens are letters, so a string without letters is left as it is. */
  lemma NoLetterFields(s: string, table: seq<(char, int)>)
    requires forall k :: 0 <= k < |s| ==> !IsAsciiLetter(s[k])
    requires forall j :: 0 <= j < |table| ==> IsAsciiLetter(table[j].0)
    ensures ApplyFields(s, table) == s
  {
    ApplyFieldsNone(s, table);
  }

  /** `new Date('2014-07-10 10:21:12').format('yyyy-MM-dd')` */
  lemma FormatExample(d: DateValue, format: string)
    requires d.year == 2014 && d.month == 6 && d.day == 10
    requires format == "yyyy-MM-dd"
    ensures FormatSpec(d, format) == "2014-07-10"
  {
    var s1 := "2014-MM-dd";
    var s2 := "2014-07-dd";
    var s3 := "2014-07-10";
    FormatYearStep(d, format, s1);
    FormatWeekStep(d, s1);
    FormatMonthStep(s1, s2);
    FormatDayStep(s2, s3);
    FormatRestStep(d, s3);
    FormatChain(d, format, s1, s2, s3);
  }

  /** `format` as the year step, the week step and one step per table entry. */
  lemma FormatChain(d: DateValue, format: string, s1: string, s2: string, s3: string)
    requires ApplyWeek(d, ApplyYear(d, format)) == s1
    requires ApplyField(s1, ('M', d.month + 1)) == s2
    requires ApplyField(s2, ('d', d.day)) == s3
    requires ApplyFields(s3, Table(d)[2..]) == s3
    ensures FormatSpec(d, format) == s3
  {
    var t := Table(d);
    assert t[0] == ('M', d.month + 1) && t[1] == ('d', d.day);
    assert ApplyFields(s1, t) == ApplyFields(s2, t[1..]);
    assert t[1..][1..] == t[2..];
    assert ApplyFields(s2, t[1..]) == ApplyFields(s3, t[2..]);
  }

  lemma FormatWeekStep(d: DateValue, s1: string)
    requires s1 == "2014-MM-dd"
    ensures ApplyWeek(d, s1) == s1
  {
    assert FirstRun(s1, {'E'}).None?;
  }

  lemma FormatRestStep(d: DateValue, s3: string)
    requires s3 == "2014-07-10"
    ensures ApplyFields(s3, Table(d)[2..]) == s3
  {
    NoLetterFields(s3, Table(d)[2..]);
  }

  lemma FormatYearStep(d: DateValue, format: string, s1: string)
    requires d.year == 2014 && format == "yyyy-MM-dd" && s1 == "2014-MM-dd"
    ensures ApplyYear(d, format) == s1
  {
    FirstRunIs(format, {'y', 'Y'}, 0, 4);
    YearTextDigits(2014, 4);
    assert IntToString(2014) == "2014";
  }

  lemma FormatMonthStep(s1: string, s2: string)
    requires s1 == "2014-MM-dd" && s2 == "2014-07-dd"
    ensures ApplyField(s1, ('M', 7)) == s2
  {
    FirstRunIs(s1, {'M'}, 5, 2);
    assert IntToString(7) == "7";
  }

  lemma FormatDayStep(s2: string, s3: string)
    requires s2 == "2014-07-dd" && s3 == "2014-07-10"
    ensures ApplyField(s2, ('d', 10)) == s3
  {
    FirstRunIs(s2, {'d'}, 8, 2);
    assert IntToString(10) == "10";
  }

  // ---------------------------------------------------------------------
  // isLeapYear
  // ---------------------------------------------------------------------

  /** JavaScript's `%`: the remainder takes the sign of the dividend. */
  function Rem(a: int, b: int): (r: int)
    requires b > 0
    ensures -b < r < b && (a >= 0 ==> r >= 0) && (a < 0 ==> r <= 0)
  {
    if a >= 0 then a % b else -((-a) % b)
  }

  /** `!(y % (y % 100 ? 4 : 400))` */
  predicate IsLeapYear(y: int) {
    var divisor := if Rem(y, 100) != 0 then 4 else 400;
    Rem(y, divisor) == 0
  }

  /** The Gregorian rule: divisible by 4 and not by 100, or divisible by 400. */
  lemma LeapYearRule(y: int)
    ensures IsLeapYear(y) <==> (y % 4 == 0 && y % 100 != 0) || y % 400 == 0
  {
    NegatedRem4(y);
    NegatedRem100(y);
    NegatedRem400(y);
    if y % 400 == 0 {
      var q := y / 400;
      assert y == 100 * (4 * q);
    }
    if y % 100 == 0 {
      var q := y / 100;
      assert y == 4 * (25 * q);
    }
  }

  /** A number and its negation are divisible by 4 alike; likewise for 100 and 400. */
  lemma NegatedRem4(a: int)
    ensures (-a) % 4 == 0 <==> a % 4 == 0
  {
  }

  lemma NegatedRem100(a: int)
    ensures (-a) % 100 == 0 <==> a % 100 == 0
  {
  }

  lemma NegatedRem400(a: int)
    ensures (-a) % 400 == 0 <==> a % 400 == 0
  {
  }

  lemma LeapYearExamples()
    ensures IsLeapYear(2000) && IsLeapYear(2016) && IsLeapYear(2004)
    ensures !IsLeapYear(1900) && !IsLeapYear(2017)
  {
  }

  // ---------------------------------------------------------------------
  // Date.getAge
  // ---------------------------------------------------------------------

  /** `(y1, m1, d1)` comes strictly before `(y2, m2, d2)`. */
  predicate Earlier(y1: int, m1: int, d1: int, y2: int, m2: int, d2: int) {
    y1 < y2 || (y1 == y2 && (m1 < m2 || (m1 == m2 && d1 < d2)))
  }

  /** `Date.getAge(dateStr)` with `today` the current date and `birth` the parsed one. */
  method GetAge(today: DateValue, birth: DateValue) returns (age: int)
    ensures age == today.year - birth.year
      - (if Earlier(0, today.month, today.day, 0, birth.month, birth.day) then 1 else 0)
    ensures !Earlier(today.year, today.month, today.day, birth.year + age, birth.month, birth.day)
    ensures Earlier(today.year, today.month, today.day, birth.year + age + 1, birth.month, birth.day)
  {
    age := today.year - birth.year;
    var m := today.month - birth.month;
    if m < 0 || (m == 0 && today.day < birth.day) {
      age := age - 1;
    }
  }

  // ---------------------------------------------------------------------
  // diff
  // ---------------------------------------------------------------------

  /** The second argument of `diff`. */
  datatype Target = Absent | Nullish | NotDate | IsDate(date: DateValue)

  datatype Error = TypeError

  /** The length of an interval in milliseconds: seconds, minutes, hours, days, weeks. */
  function Unit(interval: string): Option<nat> {
    if interval == "s" then Some(1000)
    else if interval == "n" then Some(60000)
    else if interval == "h" then Some(3600000)
    else if interval == "d" then Some(86400000)
    else if interval == "w" then Some(86400000 * 7)
    else None
  }

  /** `parseInt(a / b)` reads the integer part, truncated toward zero, for a quotient of at least 1e-6. */
  function Truncate(a: int, b: nat): (q: int)
    requires b > 0
  {
    if a >= 0 then a / b else -((-a) / b)
  }

  /**
   * The first significant digit of `a / b` when `0 < a < b`: what `parseInt`
   * reads from the exponent form `String` gives a quotient below 1e-6.
   */
  function LeadingDigit(a: nat, b: nat): (r: nat)
    requires 0 < a < b
    ensures 1 <= r <= 9
    decreases b - a
  {
    if 10 * a >= b then 10 * a / b else LeadingDigit(10 * a, b)
  }

  /** `parseInt(a / b)` as written: the exponent form below 1e-6 leaves its leading digit. */
  function ParseIntQuotient(a: int, b: nat): int
    requires b > 0
  {
    var m := if a >= 0 then a else -a;
    if m == 0 || m * 1000000 >= b then Truncate(a, b)
    else if a > 0 then LeadingDigit(m, b) else -(LeadingDigit(m, b) as int)
  }

  /** The months between two dates: `12 * Δyear + Δmonth`. */
  function MonthDiff(from: DateValue, to: DateValue): int {
    (to.month + 1) + (to.year - from.year) * 12 - (from.month + 1)
  }

  /** `date.diff(interval, target)` as written; `Success(None)` is `undefined`. */
  function DiffAsWritten(interval: string, from: DateValue, target: Target): Result<Option<int>, Error> {
    match target
    case Absent => Success(None)
    case Nullish => Failure(TypeError)
    case NotDate => Success(None)
    case IsDate(to) =>
      match Unit(interval)
      case Some(u) => Success(Some(ParseIntQuotient(to.time - from.time, u)))
      case None =>
        if interval == "m" then Success(Some(MonthDiff(from, to)))
        else if interval == "y" then Success(Some(to.year - from.year))
        else Success(None)
  }

  /** `date.diff(interval, target)` with the quotient truncated toward zero in every case. */
  function Diff(interval: string, from: DateValue, target: Target): Result<Option<int>, Error> {
    match target
    case Absent => Success(None)
    case Nullish => Failure(TypeError)
    case NotDate => Success(None)
    case IsDate(to) =>
      match Unit(interval)
      case Some(u) => Success(Some(Truncate(to.time - from.time, u)))
      case None =>
        if interval == "m" then Success(Some(MonthDiff(from, to)))
        else if interval == "y" then Success(Some(to.year - from.year))
        else Success(None)
  }

  /** Truncation counts the whole intervals elapsed, in either direction. */
  lemma TruncateWhole(a: int, b: nat)
    requires b > 0
    ensures a >= 0 ==> Truncate(a, b) * b <= a < (Truncate(a, b) + 1) * b
    ensures Truncate(-a, b) == -Truncate(a, b)
  {
  }

  /** The two readings agree except when the quotient is nonzero and below 1e-6 in magnitude. */
  lemma DiffAgreement(a: int, b: nat)
    requires b > 0
    ensures (a == 0 || a * 1000000 >= b || -a * 1000000 >= b) ==> ParseIntQuotient(a, b) == Truncate(a, b)
    ensures a != 0 && a * 1000000 < b && -a * 1000000 < b ==> Truncate(a, b) == 0 && ParseIntQuotient(a, b) != 0
  {
    var m := if a >= 0 then a else -a;
    if m != 0 && m * 1000000 < b {
      DivSmall(m, b);
    }
  }

  lemma DivSmall(m: nat, b: nat)
    requires m < b
    ensures m / b == 0
  {
  }

  /** One millisecond read in hours: the written code gives 2, whole hours elapsed are 0. */
  lemma DiffOneMillisecond(from: DateValue, to: DateValue)
    requires to.time == from.time + 1
    ensures DiffAsWritten("h", from, IsDate(to)) == Success(Some(2))
    ensures Diff("h", from, IsDate(to)) == Success(Some(0))
  {
    assert LeadingDigit(1, 3600000) == 2 by {
      assert LeadingDigit(1000000, 3600000) == 2;
    }
  }

  /** Month and year differences add up along three dates and change sign when swapped. */
  lemma CalendarDiffAdditive(a: DateValue, b: DateValue, c: DateValue)
    ensures MonthDiff(a, b) + MonthDiff(b, c) == MonthDiff(a, c)
    ensures MonthDiff(b, a) == -MonthDiff(a, b)
    ensures Diff("y", a, IsDate(b)) == Success(Some(b.year - a.year))
    ensures Diff("m", a, IsDate(b)) == Success(Some(12 * (b.year - a.year) + b.month - a.month))
  {
  }

  /** `undefined` for a missing or non-Date target and for an unknown interval; null throws. */
  lemma DiffUndefined(interval: string, from: DateValue, to: DateValue)
    requires interval !in {"s", "n", "h", "d", "w", "m", "y"}
    ensures Diff(interval, from, IsDate(to)) == Success(None)
    ensures Diff(interval, from, Absent) == Success(None) && Diff(interval, from, NotDate) == Success(None)
    ensures Diff(interval, from, Nullish) == Failure(TypeError)
  {
  }

  /** 09:00 to 18:00 on the same day is 9 hours. */
  lemma DiffHoursExample(from: DateValue, to: DateValue)
    requires to.time == from.time + 9 * 3600000
    ensures Diff("h", from, IsDate(to)) == Success(Some(9))
    ensures DiffAsWritten("h", from, IsDate(to)) == Success(Some(9))
  {
  }

  // ---------------------------------------------------------------------
  // toCNDate
  // ---------------------------------------------------------------------

  /**
   * The digit string `'26085199682010819977222352011620845'`, read five
   * characters at a time: `substr(day * 5, 5)` is group `day` of this table.
   */
  const WeekCodes: seq<string> := ["26085", "19968", "20108", "19977", "22235", "20116", "20845"]

  /** `String.fromCharCode` of the number the five digits for `day` spell. */
  function WeekChar(day: int): char
    requires 0 <= day <= 6
  {
    var digits := WeekCodes[day];
    if AllDigits(digits) && DigitsValue(digits) < 0xD800 then DigitsValue(digits) as char else ' '
  }

  function Pad(v: int, length: int): string {
    NumberExt.Padded(IntToString(v), length)
  }

  /** A padded field followed by its unit character. */
  function Part(v: int, length: int, unit: char): string {
    Pad(v, length) + [unit]
  }

  /** The text of `toCNDate` with `shown` printed in the month field. */
  function CNDateText(d: DateValue, shown: int): string
    requires Valid(d)
  {
    Part(d.year, 4, 0x5E74 as char) + (Part(shown, 2, 0x6708 as char) + DayAndTime(d))
  }

  /** `date.toCNDate()` as written: the month field is `getMonth()`, which counts from zero. */
  function ToCNDateAsWritten(d: DateValue): string
    requires Valid(d)
  {
    CNDateText(d, d.month)
  }

  /** `date.toCNDate()` with the calendar month, as `format` prints it for `M`. */
  function ToCNDate(d: DateValue): string
    requires Valid(d)
  {
    CNDateText(d, d.month + 1)
  }

  /** The day, the time and the week day, each with its unit character. */
  function DayAndTime(d: DateValue): string
    requires Valid(d)
  {
    Part(d.day, 2, 0x65E5 as char)
    + (Part(d.hours, 2, 0x65F6 as char)
    + (Part(d.minutes, 2, 0x5206 as char)
    + (Part(d.seconds, 2, 0x79D2 as char)
    + [' ', ' ', 0x661F as char, 0x671F as char, WeekChar(d.weekday)])))
  }

  /** Five digits read most significant first. */
  lemma FiveDigits(s: string)
    requires |s| == 5 && AllDigits(s)
    ensures DigitsValue(s) == 10000 * DigitValue(s[0]) + 1000 * DigitValue(s[1])
      + 100 * DigitValue(s[2]) + 10 * DigitValue(s[3]) + DigitValue(s[4])
  {
    assert s[..4][..3] == s[..3] && s[..3][..2] == s[..2] && s[..2][..1] == s[..1] && s[..1][..0] == [];
    var d1 := DigitsValue(s[..1]);
    assert DigitsValue(s[..1][..0]) == 0;
    assert d1 == DigitValue(s[0]);
    var d2 := DigitsValue(s[..2]);
    assert d2 == 10 * d1 + DigitValue(s[1]);
    var d3 := DigitsValue(s[..3]);
    assert d3 == 10 * d2 + DigitValue(s[2]);
    var d4 := DigitsValue(s[..4]);
    assert d4 == 10 * d3 + DigitValue(s[3]);
    assert DigitsValue(s) == 10 * d4 + DigitValue(s[4]);
  }

  /** The week-day character of `toCNDate` is the name `format` prints for the same day. */
  lemma WeekCharNames(day: int)
    requires 0 <= day <= 6
    ensures [WeekChar(day)] == WeekName(day)
  {
    var digits := WeekCodes[day];
    FiveDigits(digits);
  }

  /** Two-digit fields keep their width. */
  lemma PartTwo(v: int, unit: char)
    requires 0 <= v <= 99
    ensures |Part(v, 2, unit)| == 3 && Part(v, 2, unit)[2] == unit
    ensures AllDigits(Part(v, 2, unit)[..2]) && DigitsValue(Part(v, 2, unit)[..2]) == v
  {
    NatToStringLength(v, 2);
    NumberExt.PaddedValue(v, 2);
    assert Part(v, 2, unit)[..2] == Pad(v, 2);
  }

  /** For a four-digit year the text is 25 characters long, with the two-digit month at 5 and 6. */
  lemma CNDateMonthField(d: DateValue, shown: int)
    requires Valid(d) && 1000 <= d.year <= 9999 && 0 <= shown <= 99
    ensures |CNDateText(d, shown)| == 25
    ensures AllDigits(CNDateText(d, shown)[5..7]) && DigitsValue(CNDateText(d, shown)[5..7]) == shown
  {
    YearTextDigits(d.year, 4);
    NumberExt.PaddedLongEnough(IntToString(d.year), 4);
    var year := Part(d.year, 4, 0x5E74 as char);
    assert |year| == 5;
    var month := Part(shown, 2, 0x6708 as char);
    PartTwo(shown, 0x6708 as char);
    DayAndTimeLength(d);
    assert CNDateText(d, shown)[5..7] == month[..2];
  }

  /**
   * As written, the month field is one less than the calendar month for every
   * date: June (month 5) prints `05`.
   */
  lemma ToCNDateMonthAsWritten(d: DateValue)
    requires Valid(d) && 1000 <= d.year <= 9999
    ensures AllDigits(ToCNDateAsWritten(d)[5..7]) && DigitsValue(ToCNDateAsWritten(d)[5..7]) == d.month
    ensures ToCNDateAsWritten(d)[5..7] != ToCNDate(d)[5..7]
  {
    CNDateMonthField(d, d.month);
    CNDateMonthField(d, d.month + 1);
  }

  /** The corrected text prints the calendar month, 1 to 12, the value `format` uses for `M`. */
  lemma ToCNDateMonth(d: DateValue)
    requires Valid(d) && 1000 <= d.year <= 9999
    ensures |ToCNDate(d)| == 25
    ensures AllDigits(ToCNDate(d)[5..7]) && DigitsValue(ToCNDate(d)[5..7]) == Table(d)[0].1
    ensures 1 <= DigitsValue(ToCNDate(d)[5..7]) <= 12
  {
    CNDateMonthField(d, d.month + 1);
  }

  lemma DayAndTimeLength(d: DateValue)
    requires Valid(d)
    ensures |DayAndTime(d)| == 17
  {
    PartTwo(d.day, 0x65E5 as char);
    PartTwo(d.hours, 0x65F6 as char);
    PartTwo(d.minutes, 0x5206 as char);
    PartTwo(d.seconds, 0x79D2 as char);
  }
}
