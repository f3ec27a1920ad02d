/**
 * The String helpers of src/polyfill/String.js.
 *
 * The receiver `this` becomes the first parameter. Case mapping is the
 * ASCII part of `toLowerCase` / `toUpperCase` (see README).
 */
module StringExt {
  import opened Wrappers
  import opened JsCore

  // ---------------------------------------------------------------------
  // reverse
  // ---------------------------------------------------------------------

  /** The characters of `s` from last to first. */
  function Reversed(s: string): string {
    if s == [] then [] else Reversed(s[1..]) + [s[0]]
  }

  /** `s.reverse()`: push `s[i]` for `i` from the last index down to 0, then join. */
  method Reverse(s: string) returns (r: string)
    ensures r == Reversed(s)
  {
    var chars: seq<char> := [];
    var i := |s| - 1;
    while i > -1
      invariant -1 <= i < |s|
      invariant chars == Reversed(s[i + 1..])
    {
      assert s[i..][1..] == s[i + 1..];
      chars := chars + [s[i]];
      i := i - 1;
    }
    assert s[0..] == s;
    r := chars;
  }

  /** Reversal keeps the length and puts the character at `k` at the mirrored index. */
  lemma {:induction false} ReversedIndex(s: string)
    ensures |Reversed(s)| == |s|
    ensures forall k :: 0 <= k < |s| ==> Reversed(s)[k] == s[|s| - 1 - k]
  {
    if s != [] {
      ReversedIndex(s[1..]);
    }
  }

  /** Reversing twice gives the string back. */
  lemma ReverseInvolution(s: string)
    ensures Reversed(Reversed(s)) == s
  {
    ReversedIndex(s);
    ReversedIndex(Reversed(s));
  }

  // ---------------------------------------------------------------------
  // contains
  // ---------------------------------------------------------------------

  /** `s.contains(chr)`: `indexOf` finds it. */
  function Contains(s: string, chr: string): (r: bool)
    ensures r <==> exists k :: OccursAt(s, chr, k)
  {
    IndexOf(s, chr) > -1
  }

  // ---------------------------------------------------------------------
  // String.format / format
  // ---------------------------------------------------------------------

  /**
   * Where `/\{(\d+)\}/` matches at the start of `s`: `Some(d)` with `d` the
   * number of digits between the braces.
   */
  function PlaceholderAt(s: string): (r: Option<nat>)
    ensures r.Some? ==> 1 <= r.value && r.value + 2 <= |s| && AllDigits(s[1..r.value + 1])
  {
    if s != [] && s[0] == '{' then
      var d := DigitRun(s, 1);
      if 1 <= d && d + 1 < |s| && s[d + 1] == '}' then
        Some(d)
      else None
    else None
  }

  /**
   * `args[i]` for the digits `i` of a placeholder: the argument is defined when
   * the digits name an array index (no leading zero) below the argument count
   * and the argument there is not `undefined` (`None`).
   */
  function Argument(i: string, args: seq<Option<string>>): Option<string>
    requires AllDigits(i)
  {
    if i != [] && (i[0] != '0' || |i| == 1) && DigitsValue(i) < |args| then args[DigitsValue(i)]
    else None
  }

  /**
   * `String.format(template, args...)` and `template.format(args...)`: each
   * `{digits}` naming a defined argument becomes that argument; every other
   * placeholder (no such argument, or one passed as `undefined`) and all
   * other text stay as they are.
   */
  function Format(template: string, args: seq<Option<string>>): string
    decreases |template|
  {
    if template == [] then []
    else
      match PlaceholderAt(template)
      case Some(d) =>
        var replacement := match Argument(template[1..d + 1], args)
          case Some(a) => a
          case None => template[..d + 2];
        replacement + Format(template[d + 2..], args)
      case None => [template[0]] + Format(template[1..], args)
  }

  /** Text without a `{` before the first placeholder is copied unchanged. */
  lemma {:induction false} FormatPlainPrefix(p: string, s: string, args: seq<Option<string>>)
    requires '{' !in p
    ensures Format(p + s, args) == p + Format(s, args)
  {
    if p != [] {
      assert p[0] in p;
      assert (p + s)[0] == p[0] != '{';
      assert PlaceholderAt(p + s) == None;
      assert (p + s)[1..] == p[1..] + s;
      assert Format(p + s, args) == [p[0]] + Format(p[1..] + s, args);
      FormatPlainPrefix(p[1..], s, args);
      assert p + Format(s, args) == [p[0]] + (p[1..] + Format(s, args));
    } else {
      assert p + s == s;
    }
  }

  /** With no arguments every placeholder stays verbatim, so the template comes back unchanged. */
  lemma {:induction false} FormatNoArgs(s: string)
    ensures Format(s, []) == s
    decreases |s|
  {
    if s != [] {
      match PlaceholderAt(s)
      case Some(d) =>
        assert Argument(s[1..d + 1], []) == None;
        FormatNoArgs(s[d + 2..]);
        assert s[..d + 2] + s[d + 2..] == s;
      case None =>
        FormatNoArgs(s[1..]);
        assert [s[0]] + s[1..] == s;
    }
  }

  /** The placeholder `{k}` for the argument index `k`. */
  function Placeholder(k: nat): (p: string)
    ensures |p| >= 3 && p[0] == '{' && p[|p| - 1] == '}'
  {
    ['{'] + NatToString(k) + ['}']
  }

  /**
   * A placeholder naming a defined argument is replaced by exactly that
   * argument; one naming no argument, or an `undefined` one, is kept verbatim.
   */
  lemma FormatPlaceholder(k: nat, rest: string, args: seq<Option<string>>)
    ensures k < |args| && args[k].Some? ==> Format(Placeholder(k) + rest, args) == args[k].value + Format(rest, args)
    ensures k >= |args| || args[k].None? ==> Format(Placeholder(k) + rest, args) == Placeholder(k) + Format(rest, args)
  {
    var digits := NatToString(k);
    var n := |digits|;
    var s := Placeholder(k) + rest;
    assert s[1..n + 1] == digits;
    assert s[n + 1] == '}';
    DigitRunIs(s, 1, n);
    assert PlaceholderAt(s) == Some(n);
    NatToStringValue(k);
    if k == 0 {
      assert n == 1;
    }
    assert s[..n + 2] == Placeholder(k);
    assert s[n + 2..] == rest;
  }

  /** `'I love {0}, but I don\'t love {1}'.format('China', 'Japan')` */
  lemma FormatExample(template: string, args: seq<Option<string>>)
    requires template == "I love " + "{0}" + ", but I don't love " + "{1}"
    requires args == [Some("China"), Some("Japan")]
    ensures Format(template, args) == "I love " + "China" + ", but I don't love " + "Japan"
  {
    var p1, p2 := "I love ", ", but I don't love ";
    var h0, h1 := Placeholder(0), Placeholder(1);
    assert h0 == "{0}" && h1 == "{1}";
    var t2 := p2 + (h1 + []);
    var t1 := h0 + t2;
    assert template == p1 + t1;
    FormatPlaceholder(1, [], args);
    assert Format(h1 + [], args) == "Japan";
    PlainPrefixNoBrace(p1, p2);
    FormatPlainPrefix(p2, h1 + [], args);
    assert Format(t2, args) == p2 + "Japan";
    FormatPlaceholder(0, t2, args);
    assert Format(t1, args) == "China" + (p2 + "Japan");
    FormatPlainPrefix(p1, t1, args);
  }

  /** `'{0}{1}'.format(undefined, 'b')`: the `undefined` argument leaves `{0}` in place. */
  lemma FormatUndefinedExample(args: seq<Option<string>>)
    requires args == [None, Some("b")]
    ensures Format(Placeholder(0) + Placeholder(1), args) == Placeholder(0) + "b"
  {
    FormatPlaceholder(1, [], args);
    assert Placeholder(1) + [] == Placeholder(1);
    FormatPlaceholder(0, Placeholder(1), args);
  }

  lemma PlainPrefixNoBrace(p1: string, p2: string)
    requires p1 == "I love " && p2 == ", but I don't love "
    ensures '{' !in p1 && '{' !in p2
  {
  }

  // ---------------------------------------------------------------------
  // cnLength
  // ---------------------------------------------------------------------

  /** A character outside `[\x00-\xff]`, counted twice by `cnLength`. */
  predicate IsWide(c: char) {
    c as int > 0xFF
  }

  /** `s.replace(/[^\x00-\xff]/g, '**')` */
  function Widened(s: string): (r: string)
    ensures |r| == |s| + |Filter(s, IsWide)|
  {
    if s == [] then []
    else (if IsWide(s[0]) then "**" else [s[0]]) + Widened(s[1..])
  }

  /** `s.cnLength()`: the length once every wide character counts twice. */
  function CnLength(s: string): (n: nat)
    ensures n == |s| + Count(s, IsWide)
    ensures n <= 2 * |s|
  {
    |Widened(s)|
  }

  /** `'hello你好'.cnLength()` is 9 where its `length` is 7. */
  lemma CnLengthExample(s: string)
    requires s == "hello" + [0x4F60 as char, 0x597D as char]
    ensures |s| == 7 && CnLength(s) == 9
  {
    assert s[5..] == [0x4F60 as char, 0x597D as char];
    FilterAppend("hello", s[5..], IsWide);
    FilterAll(s[5..], IsWide);
    assert Filter("hello", IsWide) == [];
  }

  // ---------------------------------------------------------------------
  // number, english, chinese
  // ---------------------------------------------------------------------

  /** The characters `number` keeps: digits, and `.` when the flag is truthy. */
  predicate NumberChar(c: char, float: bool) {
    IsDigit(c) || (float && c == '.')
  }

  /** `s.number(float)`: `s.replace(float ? /[^\d.]/g : /[^\d]/g, '')` */
  function Number(s: string, float: bool): (r: string)
    ensures |r| <= |s|
    ensures forall k :: 0 <= k < |r| ==> NumberChar(r[k], float)
  {
    if s == [] then []
    else (if NumberChar(s[0], float) then [s[0]] else []) + Number(s[1..], float)
  }

  /** `number` keeps every digit (and point) of the input, as often as it occurs and in its order, and nothing else. */
  lemma {:induction false} NumberCounts(s: string, float: bool, c: char)
    ensures multiset(Number(s, float))[c] == if NumberChar(c, float) then multiset(s)[c] else 0
    ensures IsSubsequence(Number(s, float), s)
  {
    if s != [] {
      var r := Number(s[1..], float);
      NumberCounts(s[1..], float, c);
      assert multiset(s) == multiset([s[0]]) + multiset(s[1..]) by {
        assert s == [s[0]] + s[1..];
      }
      if NumberChar(s[0], float) {
        assert Number(s, float) == [s[0]] + r;
        assert ([s[0]] + r)[1..] == r;
      } else {
        assert Number(s, float) == r;
        SubsequenceSkip(r, s);
      }
    }
  }

  /** `number` works character by character, so it distributes over concatenation. */
  lemma {:induction false} NumberAppend(a: string, b: string, float: bool)
    ensures Number(a + b, float) == Number(a, float) + Number(b, float)
  {
    if a == [] {
      assert a + b == b;
    } else {
      var head := if NumberChar(a[0], float) then [a[0]] else [];
      assert (a + b)[0] == a[0] && (a + b)[1..] == a[1..] + b;
      assert Number(a + b, float) == head + Number(a[1..] + b, float);
      NumberAppend(a[1..], b, float);
      assert Number(a, float) == head + Number(a[1..], float);
    }
  }

  /** `'1.0, 1996'.number()` drops the point, the comma and the space: `'101996'`. */
  lemma NumberExample()
    ensures Number("1.0, 1996", false) == "101996"
  {
  }

  /** `'1.0, 1996'.number(1)` keeps the point: `'1.01996'`. */
  lemma NumberFloatExample()
    ensures Number("1.0, 1996", true) == "1.01996"
  {
  }

  /** `s.english()`: `s.replace(/[^A-Za-z]/g, '')` */
  function English(s: string): (r: string)
    ensures |r| <= |s|
    ensures forall k :: 0 <= k < |r| ==> IsAsciiLetter(r[k])
  {
    Filter(s, IsAsciiLetter)
  }

  /** `english` keeps every ASCII letter of the input, as often as it occurs and in its order, and nothing else. */
  lemma EnglishCounts(s: string, c: char)
    ensures multiset(English(s))[c] == if IsAsciiLetter(c) then multiset(s)[c] else 0
    ensures IsSubsequence(English(s), s)
  {
    FilterCount(s, IsAsciiLetter, c);
    FilterSubsequence(s, IsAsciiLetter);
  }

  /** `[一-龥豈-鶴]`: the CJK ideographs `chinese` keeps. */
  predicate IsHan(c: char) {
    (0x4E00 as char <= c <= 0x9FA5 as char) || (0xF900 as char <= c <= 0xFA2D as char)
  }

  /** `s.chinese()`: `s.replace(/[^一-龥豈-鶴]/g, '')` */
  function Chinese(s: string): (r: string)
    ensures |r| <= |s|
    ensures forall k :: 0 <= k < |r| ==> IsHan(r[k])
  {
    Filter(s, IsHan)
  }

  /** `chinese` keeps every ideograph of the input, as often as it occurs and in its order, and nothing else. */
  lemma ChineseCounts(s: string, c: char)
    ensures multiset(Chinese(s))[c] == if IsHan(c) then multiset(s)[c] else 0
    ensures IsSubsequence(Chinese(s), s)
  {
    FilterCount(s, IsHan, c);
    FilterSubsequence(s, IsHan);
  }

  // ---------------------------------------------------------------------
  // resetBlank
  // ---------------------------------------------------------------------

  /** What is left once the leading white space is skipped. */
  function SkipSpaces(s: string): (r: string)
    ensures |r| <= |s|
    ensures r == [] || !IsSpace(r[0])
    ensures Filter(r, c => !IsSpace(c)) == Filter(s, c => !IsSpace(c))
  {
    if s != [] && IsSpace(s[0]) then SkipSpaces(s[1..]) else s
  }

  /** `s.resetBlank()`: `s.replace(/\s+/g, ' ')`, one space for each maximal run of white space. */
  function ResetBlank(s: string): (r: string)
    ensures s == [] <==> r == []
    ensures r != [] ==> (IsSpace(s[0]) <==> r[0] == ' ') && (!IsSpace(s[0]) ==> r[0] == s[0])
    decreases |s|
  {
    if s == [] then []
    else if IsSpace(s[0]) then " " + ResetBlank(SkipSpaces(s[1..]))
    else [s[0]] + ResetBlank(s[1..])
  }

  /** A string `resetBlank` leaves alone: its only white space is single spaces. */
  predicate Collapsed(t: string) {
    (forall i :: 0 <= i < |t| && IsSpace(t[i]) ==> t[i] == ' ')
    && (forall i :: 0 <= i < |t| - 1 ==> !(IsSpace(t[i]) && IsSpace(t[i + 1])))
  }

  /** The result has no two adjacent white-space characters and no white space but plain spaces. */
  lemma {:induction false} ResetBlankCollapses(s: string)
    ensures Collapsed(ResetBlank(s))
    decreases |s|
  {
    if s != [] {
      var r := ResetBlank(s);
      var rest := if IsSpace(s[0]) then SkipSpaces(s[1..]) else s[1..];
      ResetBlankCollapses(rest);
      var tail := ResetBlank(rest);
      assert r == [r[0]] + tail;
      forall i | 0 <= i < |r| - 1 ensures !(IsSpace(r[i]) && IsSpace(r[i + 1])) {
        if i > 0 {
          assert r[i] == tail[i - 1] && r[i + 1] == tail[i];
        } else if IsSpace(s[0]) {
          assert rest != [] && !IsSpace(rest[0]);
          assert r[1] == tail[0];
        }
      }
      forall i | 0 <= i < |r| && IsSpace(r[i]) ensures r[i] == ' ' {
        if i > 0 {
          assert r[i] == tail[i - 1];
        }
      }
    }
  }

  /** A collapsed string is its own `resetBlank`. */
  lemma {:induction false} ResetBlankFixes(t: string)
    requires Collapsed(t)
    ensures ResetBlank(t) == t
    decreases |t|
  {
    if t != [] {
      assert Collapsed(t[1..]) by {
        forall i | 0 <= i < |t[1..]| - 1 ensures !(IsSpace(t[1..][i]) && IsSpace(t[1..][i + 1])) {
          assert t[1..][i] == t[i + 1] && t[1..][i + 1] == t[i + 2];
        }
      }
      ResetBlankFixes(t[1..]);
      if IsSpace(t[0]) {
        assert t[0] == ' ';
        assert t[1..] == [] || !IsSpace(t[1]);
        assert SkipSpaces(t[1..]) == t[1..];
      }
      assert t == [t[0]] + t[1..];
    }
  }

  /** `resetBlank` changes a string exactly when it is not already collapsed, and applying it twice is applying it once. */
  lemma ResetBlankIdempotent(s: string)
    ensures ResetBlank(s) == s <==> Collapsed(s)
    ensures ResetBlank(ResetBlank(s)) == ResetBlank(s)
  {
    ResetBlankCollapses(s);
    if Collapsed(s) {
      ResetBlankFixes(s);
    }
    ResetBlankFixes(ResetBlank(s));
  }

  /** The text between the white space is kept, in order. */
  lemma {:induction false} ResetBlankKeepsText(s: string)
    ensures Filter(ResetBlank(s), c => !IsSpace(c)) == Filter(s, c => !IsSpace(c))
    decreases |s|
  {
    if s != [] {
      if IsSpace(s[0]) {
        ResetBlankKeepsText(SkipSpaces(s[1..]));
        assert (" " + ResetBlank(SkipSpaces(s[1..])))[1..] == ResetBlank(SkipSpaces(s[1..]));
      } else {
        ResetBlankKeepsText(s[1..]);
        assert ([s[0]] + ResetBlank(s[1..]))[1..] == ResetBlank(s[1..]);
      }
    }
  }

  // ---------------------------------------------------------------------
  // firstUpperCase
  // ---------------------------------------------------------------------

  /** `\b[a-z]` matches at `k`: a small letter with no word character before it. */
  predicate WordStart(t: string, k: nat)
    requires k < |t|
  {
    'a' <= t[k] <= 'z' && (k == 0 || !IsWordChar(t[k - 1]))
  }

  /**
   * `s.firstUpperCase(perword)`: lower-case the string, then capitalise the
   * first character when it is not white space (`/^\S/`), or with `perword`
   * every small letter at a word boundary (`/\b[a-z]/g`).
   */
  function FirstUpperCase(s: string, perword: bool): (r: string)
    ensures |r| == |s|
  {
    var t := LowerString(s);
    if perword then seq(|t|, k requires 0 <= k < |t| => if WordStart(t, k) then Upper(t[k]) else t[k])
    else if t != [] && !IsSpace(t[0]) then [Upper(t[0])] + t[1..]
    else t
  }

  /** Without `perword` only the first character can come out capitalised; the rest is lower case. */
  lemma FirstUpperCaseFirstOnly(s: string)
    ensures var r := FirstUpperCase(s, false);
      forall k :: 0 <= k < |s| ==> r[k] == if k == 0 then Upper(Lower(s[0])) else Lower(s[k])
  {
  }

  /** With `perword` a character comes out as a capital exactly when it is a letter that starts a word. */
  lemma FirstUpperCasePerWord(s: string)
    ensures var r := FirstUpperCase(s, true);
      forall k :: 0 <= k < |s| ==>
        ('A' <= r[k] <= 'Z' <==> IsAsciiLetter(s[k]) && (k == 0 || !IsWordChar(s[k - 1])))
  {
    var t := LowerString(s);
    forall j | 0 <= j < |s| ensures IsWordChar(t[j]) == IsWordChar(s[j]) {
    }
  }

  /** Capitalising twice is capitalising once. */
  lemma FirstUpperCaseIdempotent(s: string, perword: bool)
    ensures FirstUpperCase(FirstUpperCase(s, perword), perword) == FirstUpperCase(s, perword)
  {
    var r := FirstUpperCase(s, perword);
    assert LowerString(r) == LowerString(s);
  }

  /** `'hello world'` and `'HELLO WORLD'` give `'Hello world'`, and `'Hello World'` with `perword`. */
  lemma FirstUpperCaseExample(a: string, b: string)
    requires a == "hello world" && b == "HELLO WORLD"
    ensures FirstUpperCase(a, false) == FirstUpperCase(b, false) == "Hello world"
    ensures FirstUpperCase(a, true) == FirstUpperCase(b, true) == "Hello World"
  {
    assert LowerString(a) == LowerString(b) == "hello world";
    assert WordStart("hello world", 6);
    assert !WordStart("hello world", 7);
  }
}
