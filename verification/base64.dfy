/**
 * The `Base64` object of dist/polyfill.js: Base64 over the UTF-8 form of a
 * string, where the UTF-8 coder works on UTF-16 code units one at a time.
 *
 * JavaScript strings here are sequences of UTF-16 code units, so that lone
 * surrogates and the values a decoder produces from arbitrary input are
 * representable. The bitwise operators become arithmetic: a shift is a
 * multiplication or division by a power of two, `x & (2^k - 1)` is
 * `x % 2^k`, and `|` of operands whose bits cannot overlap is `+`. Where
 * they can overlap (when decoding `=`), `Or` computes the bitwise or.
 */
module Base64 {
  import opened Wrappers
  import opened JsCore

  type CodeUnit = x: int | 0 <= x < 0x1_0000
  type Text = seq<CodeUnit>

  // ---------------------------------------------------------------------
  // JavaScript primitives
  // ---------------------------------------------------------------------

  /** `s.charCodeAt(k)`; `None` is the NaN returned past the end. */
  function CharCodeAt(s: Text, k: nat): Option<CodeUnit> {
    if k < |s| then Some(s[k]) else None
  }

  /** The integer a bitwise operator reads from a character code: NaN reads as 0. */
  function Bits(c: Option<CodeUnit>): nat {
    if c.Some? then c.value else 0
  }

  /** What is left of `s` once an index has moved `i` units along it. */
  function Drop(s: Text, i: nat): (r: Text)
    ensures |r| < |s| || (r == s && i == 0) || r == []
  {
    if i <= |s| then s[i..] else []
  }

  /** `a | b` on non-negative integers. */
  function Or(a: nat, b: nat): (r: nat)
    ensures r <= a + b
    decreases a + b
  {
    if a == 0 then b
    else if b == 0 then a
    else 2 * Or(a / 2, b / 2) + (if a % 2 == 1 || b % 2 == 1 then 1 else 0)
  }

  /** `(q << p) | b` is `q * 2^p + b` when `b` fits in `p` bits. */
  lemma {:induction false} OrShifted(q: nat, b: nat, p: nat)
    requires b < Pow2(p)
    ensures Or(q * Pow2(p), b) == q * Pow2(p) + b
  {
    if p > 0 {
      var half := q * Pow2(p - 1);
      assert q * Pow2(p) == 2 * half;
      OrShifted(q, b / 2, p - 1);
    }
  }

  // ---------------------------------------------------------------------
  // The alphabet
  // ---------------------------------------------------------------------

  const Uppercase: string := "ABCDEFGHIJKLMNOPQRSTUVWXYZ"
  const Lowercase: string := "abcdefghijklmnopqrstuvwxyz"
  const Digits: string := "0123456789"

  /** `_keyStr`: the 64 digits of Base64, then the pad `=` at index 64. */
  const KeyStr: string := Uppercase + Lowercase + Digits + "+/="

  const Pad: CodeUnit := '=' as int

  /** `_keyStr.charAt(k)` for `k <= 64`. */
  function KeyAt(k: nat): (c: CodeUnit)
    requires k <= 64
  {
    KeyStr[k] as int
  }

  lemma UppercaseRange(i: nat)
    requires i < 26
    ensures Uppercase[i] as int == 'A' as int + i
  {
  }

  lemma LowercaseRange(i: nat)
    requires i < 26
    ensures Lowercase[i] as int == 'a' as int + i
  {
  }

  lemma DigitsRange(i: nat)
    requires i < 10
    ensures Digits[i] as int == '0' as int + i
  {
  }

  lemma KeyAtSigns()
    ensures KeyAt(62) == '+' as int && KeyAt(63) == '/' as int && KeyAt(64) == '=' as int
  {
    assert |Uppercase + Lowercase + Digits| == 62;
  }

  /** The alphabet position by position: capitals, small letters, digits, `+`, `/` and `=`. */
  lemma KeyAtValue(k: nat)
    requires k <= 64
    ensures k < 26 ==> KeyAt(k) == 'A' as int + k
    ensures 26 <= k < 52 ==> KeyAt(k) == 'a' as int + (k - 26)
    ensures 52 <= k < 62 ==> KeyAt(k) == '0' as int + (k - 52)
    ensures KeyAt(62) == '+' as int && KeyAt(63) == '/' as int && KeyAt(64) == '=' as int
  {
    KeyAtSigns();
    if k < 26 {
      UppercaseRange(k);
    } else if k < 52 {
      LowercaseRange(k - 26);
    } else if k < 62 {
      DigitsRange(k - 52);
    }
  }

  /** The characters `[A-Za-z0-9+/=]` that decoding keeps. */
  predicate IsKeyUnit(c: CodeUnit) {
    'A' as int <= c <= 'Z' as int || 'a' as int <= c <= 'z' as int || '0' as int <= c <= '9' as int
    || c == '+' as int || c == '/' as int || c == '=' as int
  }

  /** `_keyStr.indexOf(c)` for one character: its position in the alphabet, else -1. */
  function KeyIndex(c: CodeUnit): (r: int)
    ensures -1 <= r <= 64
    ensures r == -1 <==> !IsKeyUnit(c)
  {
    if 'A' as int <= c <= 'Z' as int then c - 'A' as int
    else if 'a' as int <= c <= 'z' as int then c - 'a' as int + 26
    else if '0' as int <= c <= '9' as int then c - '0' as int + 52
    else if c == '+' as int then 62
    else if c == '/' as int then 63
    else if c == '=' as int then 64
    else -1
  }

  /** `indexOf` finds each alphabet character at its own position, so the alphabet has no repeats. */
  lemma KeyIndexInverse(k: nat)
    requires k <= 64
    ensures KeyIndex(KeyAt(k)) == k
    ensures IsKeyUnit(KeyAt(k))
  {
    KeyAtValue(k);
  }

  /** Every character `indexOf` finds sits at the position it reports. */
  lemma KeyIndexFound(c: CodeUnit)
    requires IsKeyUnit(c)
    ensures KeyAt(KeyIndex(c)) == c
  {
    KeyAtValue(KeyIndex(c));
  }

  predicate AllKeyUnits(t: Text) {
    forall k :: 0 <= k < |t| ==> IsKeyUnit(t[k])
  }

  /** `input.replace(/[^A-Za-z0-9\+\/\=]/g, "")` */
  function Strip(t: Text): (r: Text)
    ensures AllKeyUnits(r)
  {
    Filter(t, IsKeyUnit)
  }

  // ---------------------------------------------------------------------
  // UTF-8 over UTF-16 code units (_utf8_encode, _utf8_decode)
  // ---------------------------------------------------------------------

  const CR: CodeUnit := 13
  const LF: CodeUnit := 10

  /** `s.replace(/\r\n/g, "\n")`: one left-to-right pass. */
  function NormalizeNewlines(s: Text): (r: Text)
    ensures |r| <= |s|
  {
    if |s| >= 2 && s[0] == CR && s[1] == LF then [LF] + NormalizeNewlines(s[2..])
    else if s == [] then []
    else [s[0]] + NormalizeNewlines(s[1..])
  }

  /** No carriage return is directly followed by a line feed. */
  predicate NoCRLF(s: Text) {
    forall k :: 0 <= k < |s| - 1 ==> !(s[k] == CR && s[k + 1] == LF)
  }

  /** Text without a CR LF pair is left alone. */
  lemma {:induction false} NormalizeNewlinesIdentity(s: Text)
    requires NoCRLF(s)
    ensures NormalizeNewlines(s) == s
  {
    if s != [] {
      assert |s| >= 2 ==> !(s[0] == CR && s[1] == LF);
      NormalizeNewlinesIdentity(s[1..]);
      assert s == [s[0]] + s[1..];
    }
  }

  /** The pass is not idempotent: `"\r\r\n"` becomes `"\r\n"`. */
  lemma NormalizeNewlinesOnePass(s: Text)
    requires s == [CR, CR, LF]
    ensures NormalizeNewlines(s) == [CR, LF]
  {
    assert s[1..] == [CR, LF];
    assert s[1..][2..] == [];
  }

  predicate AllBytes(t: Text) {
    forall k :: 0 <= k < |t| ==> t[k] < 256
  }

  /** The one, two or three units `_utf8_encode` writes for the code unit `c`. */
  function Utf8EncodeUnit(c: CodeUnit): Text {
    if c < 128 then [c]
    else if c < 2048 then [c / 64 + 192, c % 64 + 128]
    else [c / 4096 + 224, (c / 64) % 64 + 128, c % 64 + 128]
  }

  /** The UTF-8 units of `s`, one code unit after another. */
  function Utf8Units(s: Text): Text {
    if s == [] then [] else Utf8EncodeUnit(s[0]) + Utf8Units(s[1..])
  }

  /** Every unit `_utf8_encode` writes is a byte, and each code unit takes one to three of them. */
  lemma {:induction false} Utf8UnitsBytes(s: Text)
    ensures AllBytes(Utf8Units(s))
    ensures |s| <= |Utf8Units(s)| <= 3 * |s|
  {
    if s != [] {
      Utf8UnitsBytes(s[1..]);
    }
  }

  /** ASCII text is its own UTF-8 form. */
  lemma {:induction false} Utf8UnitsAscii(s: Text)
    requires forall k :: 0 <= k < |s| ==> s[k] < 128
    ensures Utf8Units(s) == s
  {
    if s != [] {
      Utf8UnitsAscii(s[1..]);
      assert s == [s[0]] + s[1..];
    }
  }

  /** `Base64._utf8_encode(string)` */
  method Utf8Encode(input: Text) returns (utftext: Text)
    ensures utftext == Utf8Units(NormalizeNewlines(input))
  {
    var s := NormalizeNewlines(input);
    utftext := [];
    var n := 0;
    while n < |s|
      invariant 0 <= n <= |s|
      invariant utftext + Utf8Units(s[n..]) == Utf8Units(s)
    {
      ghost var before := utftext;
      var c := s[n];
      if c < 128 {
        utftext := utftext + [c];
      } else if c > 127 && c < 2048 {
        utftext := utftext + [c / 64 + 192];
        utftext := utftext + [c % 64 + 128];
      } else {
        utftext := utftext + [c / 4096 + 224];
        utftext := utftext + [(c / 64) % 64 + 128];
        utftext := utftext + [c % 64 + 128];
      }
      assert utftext == before + Utf8EncodeUnit(c);
      Utf8UnitsStep(before, s, n);
      n := n + 1;
    }
    assert s[n..] == [];
  }

  lemma Utf8UnitsStep(acc: Text, s: Text, n: nat)
    requires n < |s|
    ensures (acc + Utf8EncodeUnit(s[n])) + Utf8Units(s[n + 1..]) == acc + Utf8Units(s[n..])
  {
    assert s[n..][1..] == s[n + 1..];
  }

  /** How many units `_utf8_decode` consumes for the lead unit `c`. */
  function SequenceLength(c: CodeUnit): nat {
    if c < 128 then 1 else if 191 < c < 224 then 2 else 3
  }

  /** The code unit `_utf8_decode` writes for the sequence that starts at index `i`. */
  function DecodeAt(t: Text, i: nat): CodeUnit
    requires i < |t|
  {
    var c := t[i];
    if c < 128 then c
    else if 191 < c < 224 then (c % 32) * 64 + Bits(CharCodeAt(t, i + 1)) % 64
    else (c % 16) * 4096 + (Bits(CharCodeAt(t, i + 1)) % 64) * 64 + Bits(CharCodeAt(t, i + 2)) % 64
  }

  /** What `_utf8_decode` returns: one code unit per lead unit and the units that follow it. */
  function Utf8Decoded(t: Text): Text
    decreases |t|
  {
    if t == [] then [] else [DecodeAt(t, 0)] + Utf8Decoded(Drop(t, SequenceLength(t[0])))
  }

  lemma Utf8DecodedStep(acc: Text, t: Text, i: nat, unit: CodeUnit, next: nat)
    requires i < |t| && unit == DecodeAt(t, i) && next == i + SequenceLength(t[i])
    ensures (acc + [unit]) + Utf8Decoded(Drop(t, next)) == acc + Utf8Decoded(Drop(t, i))
  {
    var rest := Drop(t, i);
    DecodeAtDrop(t, i);
    DropDrop(t, i, SequenceLength(t[i]));
    assert Utf8Decoded(rest) == [unit] + Utf8Decoded(Drop(t, next));
  }

  /** Decoding at the front of what is left is decoding at `i`. */
  lemma DecodeAtDrop(t: Text, i: nat)
    requires i < |t|
    ensures Drop(t, i) != [] && Drop(t, i)[0] == t[i]
    ensures DecodeAt(Drop(t, i), 0) == DecodeAt(t, i)
  {
    var rest := Drop(t, i);
    assert rest[0] == t[i];
    assert CharCodeAt(rest, 1) == CharCodeAt(t, i + 1);
    assert CharCodeAt(rest, 2) == CharCodeAt(t, i + 2);
  }

  /** Moving `i` units and then `k` more is moving `i + k`. */
  lemma DropDrop(t: Text, i: nat, k: nat)
    requires i < |t|
    ensures Drop(Drop(t, i), k) == Drop(t, i + k)
  {
  }

  /** One turn of the decoding loop: the code unit read at `i` and the index after its sequence. */
  method DecodeUnitAt(utftext: Text, i: nat) returns (unit: CodeUnit, next: nat)
    requires i < |utftext|
    ensures unit == DecodeAt(utftext, i) && next == i + SequenceLength(utftext[i])
  {
    var c := utftext[i];
    if c < 128 {
      unit := c;
      next := i + 1;
    } else if c > 191 && c < 224 {
      var c2 := CharCodeAt(utftext, i + 1);
      unit := (c % 32) * 64 + Bits(c2) % 64;
      next := i + 2;
    } else {
      var c2 := CharCodeAt(utftext, i + 1);
      var c3 := CharCodeAt(utftext, i + 2);
      unit := (c % 16) * 4096 + (Bits(c2) % 64) * 64 + Bits(c3) % 64;
      next := i + 3;
    }
  }

  /** `Base64._utf8_decode(utftext)` */
  method Utf8Decode(utftext: Text) returns (str: Text)
    ensures str == Utf8Decoded(utftext)
  {
    str := [];
    var i := 0;
    while i < |utftext|
      invariant str + Utf8Decoded(Drop(utftext, i)) == Utf8Decoded(utftext)
      decreases |utftext| - i
    {
      ghost var start := i;
      var unit;
      unit, i := DecodeUnitAt(utftext, i);
      Utf8DecodedStep(str, utftext, start, unit, i);
      str := str + [unit];
    }
    assert Drop(utftext, i) == [];
  }

  /** The units written for one code unit start a sequence of exactly their own length that decodes to it. */
  lemma UnitDecodesBack(c: CodeUnit, rest: Text)
    ensures SequenceLength((Utf8EncodeUnit(c) + rest)[0]) == |Utf8EncodeUnit(c)|
    ensures DecodeAt(Utf8EncodeUnit(c) + rest, 0) == c
  {
    var t := Utf8EncodeUnit(c) + rest;
    if c < 128 {
      assert t[0] == c;
    } else if c < 2048 {
      assert t[0] == c / 64 + 192 && t[1] == c % 64 + 128;
      assert (c / 64 + 192) % 32 == c / 64;
      assert (c % 64 + 128) % 64 == c % 64;
    } else {
      var q := c / 64;
      assert t[0] == q / 64 + 224 && t[1] == q % 64 + 128 && t[2] == c % 64 + 128;
      assert c / 4096 == q / 64;
      assert (q / 64 + 224) % 16 == q / 64;
      assert (q % 64 + 128) % 64 == q % 64;
      assert (c % 64 + 128) % 64 == c % 64;
      assert (q / 64) * 4096 + (q % 64) * 64 == q * 64;
    }
  }

  /** Decoding the units of one code unit gives that code unit back. */
  lemma Utf8UnitRoundTrip(c: CodeUnit, rest: Text)
    ensures Utf8Decoded(Utf8EncodeUnit(c) + rest) == [c] + Utf8Decoded(rest)
  {
    var t := Utf8EncodeUnit(c) + rest;
    UnitDecodesBack(c, rest);
    assert Drop(t, |Utf8EncodeUnit(c)|) == rest;
  }

  /** `_utf8_decode` inverts the encoding loop of `_utf8_encode` on every string of code units. */
  lemma {:induction false} Utf8RoundTrip(s: Text)
    ensures Utf8Decoded(Utf8Units(s)) == s
  {
    if s != [] {
      Utf8UnitRoundTrip(s[0], Utf8Units(s[1..]));
      Utf8RoundTrip(s[1..]);
      assert s == [s[0]] + s[1..];
    }
  }

  // ---------------------------------------------------------------------
  // Base64 (encode, decode)
  // ---------------------------------------------------------------------

  /** The four alphabet indices for the bytes at `i`, `i + 1`, `i + 2`; a missing byte pads with 64. */
  function EncodeIndices(b: Text, i: nat): (e: (nat, nat, nat, nat))
    requires i < |b| && AllBytes(b)
    ensures e.0 < 64 && e.1 < 64 && e.2 <= 64 && e.3 <= 64
  {
    var chr1, chr2, chr3 := CharCodeAt(b, i), CharCodeAt(b, i + 1), CharCodeAt(b, i + 2);
    var enc1 := Bits(chr1) / 4;
    var enc2 := (Bits(chr1) % 4) * 16 + Bits(chr2) / 16;
    var enc3 := (Bits(chr2) % 16) * 4 + Bits(chr3) / 64;
    var enc4 := Bits(chr3) % 64;
    (enc1, enc2, if chr2.None? then 64 else enc3, if chr2.None? || chr3.None? then 64 else enc4)
  }

  /** The four characters written for the group of bytes at `i`. */
  function EncodeGroupAt(b: Text, i: nat): (r: Text)
    requires i < |b| && AllBytes(b)
    ensures |r| == 4
  {
    var e := EncodeIndices(b, i);
    [KeyAt(e.0), KeyAt(e.1), KeyAt(e.2), KeyAt(e.3)]
  }

  /** Base64 of a sequence of bytes: four alphabet characters per group of up to three bytes. */
  function EncodeGroups(b: Text): Text
    requires AllBytes(b)
    decreases |b|
  {
    if b == [] then [] else EncodeGroupAt(b, 0) + EncodeGroups(Drop(b, 3))
  }

  lemma EncodeGroupsStep(acc: Text, b: Text, i: nat)
    requires i < |b| && AllBytes(b)
    ensures (acc + EncodeGroupAt(b, i)) + EncodeGroups(Drop(b, i + 3)) == acc + EncodeGroups(Drop(b, i))
  {
    var rest := Drop(b, i);
    assert CharCodeAt(rest, 0) == CharCodeAt(b, i);
    assert CharCodeAt(rest, 1) == CharCodeAt(b, i + 1) && CharCodeAt(rest, 2) == CharCodeAt(b, i + 2);
    assert EncodeIndices(rest, 0) == EncodeIndices(b, i);
    assert Drop(rest, 3) == Drop(b, i + 3);
  }

  /** `Base64.encode(input)` as a function of the input. */
  function Encoded(input: Text): Text {
    Utf8UnitsBytes(NormalizeNewlines(input));
    EncodeGroups(Utf8Units(NormalizeNewlines(input)))
  }

  /** `Base64.encode(input)` */
  method Encode(input: Text) returns (output: Text)
    ensures output == Encoded(input)
  {
    output := [];
    var bytes := Utf8Encode(input);
    Utf8UnitsBytes(NormalizeNewlines(input));
    var i := 0;
    while i < |bytes|
      invariant output + EncodeGroups(Drop(bytes, i)) == EncodeGroups(bytes)
      decreases |bytes| - i
    {
      ghost var before := output;
      ghost var start := i;
      var chr1 := CharCodeAt(bytes, i);
      i := i + 1;
      var chr2 := CharCodeAt(bytes, i);
      i := i + 1;
      var chr3 := CharCodeAt(bytes, i);
      i := i + 1;

      var enc1 := Bits(chr1) / 4;
      var enc2 := (Bits(chr1) % 4) * 16 + Bits(chr2) / 16;
      var enc3 := (Bits(chr2) % 16) * 4 + Bits(chr3) / 64;
      var enc4 := Bits(chr3) % 64;

      if chr2.None? {
        enc3, enc4 := 64, 64;
      } else if chr3.None? {
        enc4 := 64;
      }

      ghost var e := EncodeIndices(bytes, start);
      assert chr1 == CharCodeAt(bytes, start) && chr2 == CharCodeAt(bytes, start + 1) && chr3 == CharCodeAt(bytes, start + 2);
      assert enc1 == e.0 && enc2 == e.1;
      assert enc3 == e.2 && enc4 == e.3;
      output := output + [KeyAt(enc1), KeyAt(enc2), KeyAt(enc3), KeyAt(enc4)];
      EncodeGroupsStep(before, bytes, start);
    }
    assert Drop(bytes, i) == [];
  }

  /** `_keyStr.indexOf(input.charAt(k))`: past the end `charAt` gives `""`, which `indexOf` finds at 0. */
  function EncAt(t: Text, k: nat): (e: nat)
    requires AllKeyUnits(t)
    ensures e <= 64
  {
    if k < |t| then KeyIndex(t[k]) else 0
  }

  /** The one, two or three code units a group of four alphabet indices decodes to. */
  function DecodeGroup(enc1: nat, enc2: nat, enc3: nat, enc4: nat): (r: Text)
    requires enc1 <= 64 && enc2 <= 64 && enc3 <= 64 && enc4 <= 64
  {
    var chr1 := Or(enc1 * 4, enc2 / 16);
    var chr2 := Or((enc2 % 16) * 16, enc3 / 4);
    var chr3 := Or((enc3 % 4) * 64, enc4);
    [chr1] + (if enc3 != 64 then [chr2] else []) + (if enc4 != 64 then [chr3] else [])
  }

  /** The code units decoded from the group of four characters at `i`. */
  function DecodeGroupAt(t: Text, i: nat): Text
    requires AllKeyUnits(t)
  {
    DecodeGroup(EncAt(t, i), EncAt(t, i + 1), EncAt(t, i + 2), EncAt(t, i + 3))
  }

  /** The code units the decoding loop produces from stripped input. */
  function DecodeGroups(t: Text): Text
    requires AllKeyUnits(t)
    decreases |t|
  {
    if t == [] then [] else DecodeGroupAt(t, 0) + DecodeGroups(Drop(t, 4))
  }

  lemma DecodeGroupsStep(acc: Text, t: Text, i: nat)
    requires i < |t| && AllKeyUnits(t)
    ensures (acc + DecodeGroupAt(t, i)) + DecodeGroups(Drop(t, i + 4)) == acc + DecodeGroups(Drop(t, i))
  {
    var rest := Drop(t, i);
    assert EncAt(rest, 0) == EncAt(t, i) && EncAt(rest, 1) == EncAt(t, i + 1);
    assert EncAt(rest, 2) == EncAt(t, i + 2) && EncAt(rest, 3) == EncAt(t, i + 3);
    assert Drop(rest, 4) == Drop(t, i + 4);
  }

  /** `Base64.decode(input)` as a function of the input. */
  function Decoded(input: Text): Text {
    Utf8Decoded(DecodeGroups(Strip(input)))
  }

  /** One turn of the decoding loop: the bit arithmetic on four indices, dropping padded positions. */
  method DecodeQuad(enc1: nat, enc2: nat, enc3: nat, enc4: nat) returns (group: Text)
    requires enc1 <= 64 && enc2 <= 64 && enc3 <= 64 && enc4 <= 64
    ensures group == DecodeGroup(enc1, enc2, enc3, enc4)
  {
    var chr1: CodeUnit := Or(enc1 * 4, enc2 / 16);
    var chr2: CodeUnit := Or((enc2 % 16) * 16, enc3 / 4);
    var chr3: CodeUnit := Or((enc3 % 4) * 64, enc4);
    group := [chr1];
    if enc3 != 64 {
      group := group + [chr2];
    }
    if enc4 != 64 {
      group := group + [chr3];
    }
  }

  /** `Base64.decode(input)` */
  method Decode(input: Text) returns (output: Text)
    ensures output == Decoded(input)
  {
    output := [];
    var s := Strip(input);
    var i := 0;
    while i < |s|
      invariant output + DecodeGroups(Drop(s, i)) == DecodeGroups(s)
      decreases |s| - i
    {
      ghost var before := output;
      ghost var start := i;
      var enc1 := EncAt(s, i);
      i := i + 1;
      var enc2 := EncAt(s, i);
      i := i + 1;
      var enc3 := EncAt(s, i);
      i := i + 1;
      var enc4 := EncAt(s, i);
      i := i + 1;

      var group := DecodeQuad(enc1, enc2, enc3, enc4);
      output := output + group;
      DecodeGroupsStep(before, s, start);
    }
    assert Drop(s, i) == [];
    assert output == DecodeGroups(s);
    output := Utf8Decode(output);
  }

  // ---------------------------------------------------------------------
  // Properties
  // ---------------------------------------------------------------------

  /** One group: four alphabet characters, padded only where bytes are missing. */
  lemma GroupShape(b: Text)
    requires b != [] && AllBytes(b)
    ensures AllKeyUnits(EncodeGroupAt(b, 0))
    ensures EncodeGroupAt(b, 0)[0] != Pad && EncodeGroupAt(b, 0)[1] != Pad
    ensures |b| >= 3 ==> Pad !in EncodeGroupAt(b, 0)
    ensures |b| == 2 ==> EncodeGroupAt(b, 0)[2] != Pad && EncodeGroupAt(b, 0)[3] == Pad
    ensures |b| == 1 ==> EncodeGroupAt(b, 0)[2] == Pad && EncodeGroupAt(b, 0)[3] == Pad
  {
    var e := EncodeIndices(b, 0);
    KeyIndexInverse(e.0);
    KeyIndexInverse(e.1);
    KeyIndexInverse(e.2);
    KeyIndexInverse(e.3);
    KeyIndexInverse(64);
    assert |b| >= 3 ==> e.2 < 64 && e.3 < 64;
  }

  /** Four output characters per group of up to three bytes, all from the alphabet. */
  lemma {:induction false} EncodeGroupsShape(b: Text)
    requires AllBytes(b)
    ensures |EncodeGroups(b)| == 4 * ((|b| + 2) / 3)
    ensures AllKeyUnits(EncodeGroups(b))
    decreases |b|
  {
    if b != [] {
      var g := EncodeGroupAt(b, 0);
      var rest := Drop(b, 3);
      EncodeGroupsShape(rest);
      GroupShape(b);
      assert EncodeGroups(b) == g + EncodeGroups(rest);
      if |b| >= 3 {
        assert |rest| == |b| - 3;
        assert (|b| + 2) / 3 == (|rest| + 2) / 3 + 1;
      } else {
        assert rest == [];
        assert (|b| + 2) / 3 == 1;
      }
    }
  }

  /** The number of `=` that close the encoding of `n` bytes: two after one spare byte, one after two. */
  function PadCount(n: nat): (p: nat)
    ensures p <= 2
    ensures p == 0 <==> n % 3 == 0
  {
    if n % 3 == 1 then 2 else if n % 3 == 2 then 1 else 0
  }

  /** `r` ends in exactly `p` pads and has no pad before them. */
  predicate PadsLast(r: Text, p: nat)
  {
    forall k :: 0 <= k < |r| ==> (r[k] == Pad <==> |r| - p <= k)
  }

  /** A group without pads in front of an encoding keeps its trailing pads. */
  lemma PadsPrepend(g: Text, rest: Text, p: nat)
    requires |g| == 4 && Pad !in g && PadsLast(rest, p) && p <= |rest|
    ensures PadsLast(g + rest, p)
  {
    var r := g + rest;
    forall k | 0 <= k < |r| ensures r[k] == Pad <==> |r| - p <= k {
      if k >= 4 {
        assert r[k] == rest[k - 4];
      } else {
        assert r[k] == g[k];
      }
    }
  }

  /** At most two trailing pads lie among the last two characters, and none means no pad at all. */
  lemma PadsLastBounds(r: Text, p: nat)
    requires PadsLast(r, p) && p <= 2
    ensures forall k :: 0 <= k < |r| && r[k] == Pad ==> |r| - 2 <= k
    ensures p == 0 ==> Pad !in r
  {
  }

  /**
   * The encoding ends in exactly `PadCount(|b|)` pads and has none before
   * them: two `=` when one byte is left over, one when two are, none for a
   * whole number of groups.
   */
  lemma {:induction false} EncodeGroupsPadding(b: Text)
    requires AllBytes(b)
    ensures PadsLast(EncodeGroups(b), PadCount(|b|))
    ensures forall k :: 0 <= k < |EncodeGroups(b)| && EncodeGroups(b)[k] == Pad ==> |EncodeGroups(b)| - 2 <= k
    ensures |b| % 3 == 0 ==> Pad !in EncodeGroups(b)
    decreases |b|
  {
    if b != [] {
      var g := EncodeGroupAt(b, 0);
      GroupShape(b);
      if |b| >= 3 {
        var rest := Drop(b, 3);
        EncodeGroupsPadding(rest);
        ModThree(|b|);
        if rest != [] {
          assert |EncodeGroups(rest)| >= 4;
        }
        PadsPrepend(g, EncodeGroups(rest), PadCount(|b|));
      } else {
        assert Drop(b, 3) == [];
        assert EncodeGroups(b) == g;
      }
    }
    PadsLastBounds(EncodeGroups(b), PadCount(|b|));
  }

  lemma ModThree(n: nat)
    requires n >= 3
    ensures (n - 3) % 3 == n % 3
  {
  }

  /** Decoding the encoding of a group of bytes gives the group back. */
  lemma GroupRoundTrip(b: Text, rest: Text)
    requires b != [] && AllBytes(b)
    requires AllKeyUnits(EncodeGroupAt(b, 0) + rest)
    ensures DecodeGroupAt(EncodeGroupAt(b, 0) + rest, 0) == b[..if |b| < 3 then |b| else 3]
  {
    var e := EncodeIndices(b, 0);
    var t := EncodeGroupAt(b, 0) + rest;
    KeyIndexInverse(e.0);
    KeyIndexInverse(e.1);
    KeyIndexInverse(e.2);
    KeyIndexInverse(e.3);
    assert EncAt(t, 0) == e.0 && EncAt(t, 1) == e.1 && EncAt(t, 2) == e.2 && EncAt(t, 3) == e.3;
    GroupDecodesBack(b);
  }

  /** The bitwise arithmetic of decoding undoes that of encoding, byte by byte. */
  lemma GroupDecodesBack(b: Text)
    requires b != [] && AllBytes(b)
    ensures var e := EncodeIndices(b, 0);
      DecodeGroup(e.0, e.1, e.2, e.3) == b[..if |b| < 3 then |b| else 3]
  {
    var e := EncodeIndices(b, 0);
    var c1, c2, c3 := b[0], Bits(CharCodeAt(b, 1)), Bits(CharCodeAt(b, 2));
    var n := if |b| < 3 then |b| else 3;
    assert c2 < 256 && c3 < 256;
    assert e == (c1 / 4, (c1 % 4) * 16 + c2 / 16,
      if n < 2 then 64 else (c2 % 16) * 4 + c3 / 64, if n < 3 then 64 else c3 % 64);
    DecodeGroupBytes(c1, c2, c3, n);
    assert b[..n] == if n == 1 then [c1] else if n == 2 then [c1, c2] else [c1, c2, c3];
  }

  /** Decoding the indices written for `n` bytes gives back those bytes. */
  lemma DecodeGroupBytes(c1: nat, c2: nat, c3: nat, n: nat)
    requires c1 < 256 && c2 < 256 && c3 < 256 && 1 <= n <= 3
    ensures DecodeGroup(c1 / 4, (c1 % 4) * 16 + c2 / 16,
        if n < 2 then 64 else (c2 % 16) * 4 + c3 / 64, if n < 3 then 64 else c3 % 64)
      == if n == 1 then [c1] else if n == 2 then [c1, c2] else [c1, c2, c3]
  {
    FirstByteBack(c1, c2);
    if n >= 2 {
      SecondByteBack(c1, c2, c3);
    }
    if n == 3 {
      ThirdByteBack(c2, c3);
    }
  }

  /** The first byte comes back from the first two indices. */
  lemma FirstByteBack(c1: nat, c2: nat)
    requires c1 < 256 && c2 < 256
    ensures Or((c1 / 4) * 4, ((c1 % 4) * 16 + c2 / 16) / 16) == c1
  {
    assert ((c1 % 4) * 16 + c2 / 16) / 16 == c1 % 4;
    assert Pow2(2) == 4;
    OrShifted(c1 / 4, c1 % 4, 2);
  }

  /** The second byte comes back from the second and third indices. */
  lemma SecondByteBack(c1: nat, c2: nat, c3: nat)
    requires c1 < 256 && c2 < 256 && c3 < 256
    ensures Or((((c1 % 4) * 16 + c2 / 16) % 16) * 16, ((c2 % 16) * 4 + c3 / 64) / 4) == c2
  {
    assert ((c1 % 4) * 16 + c2 / 16) % 16 == c2 / 16;
    assert ((c2 % 16) * 4 + c3 / 64) / 4 == c2 % 16;
    assert Pow2(4) == 16;
    OrShifted(c2 / 16, c2 % 16, 4);
  }

  /** The third byte comes back from the last two indices. */
  lemma ThirdByteBack(c2: nat, c3: nat)
    requires c2 < 256 && c3 < 256
    ensures Or((((c2 % 16) * 4 + c3 / 64) % 4) * 64, c3 % 64) == c3
  {
    assert ((c2 % 16) * 4 + c3 / 64) % 4 == c3 / 64;
    assert Pow2(6) == 64;
    OrShifted(c3 / 64, c3 % 64, 6);
  }

  /** Base64 decoding inverts Base64 encoding on bytes. */
  lemma {:induction false} GroupsRoundTrip(b: Text)
    requires AllBytes(b)
    ensures AllKeyUnits(EncodeGroups(b))
    ensures DecodeGroups(EncodeGroups(b)) == b
    decreases |b|
  {
    EncodeGroupsShape(b);
    if b != [] {
      var g := EncodeGroupAt(b, 0);
      var rest := EncodeGroups(Drop(b, 3));
      var t := g + rest;
      assert EncodeGroups(b) == t;
      assert Drop(t, 4) == rest;
      GroupsRoundTrip(Drop(b, 3));
      GroupRoundTrip(b, rest);
      if |b| >= 3 {
        assert b == b[..3] + Drop(b, 3);
      } else {
        assert b == b[..|b|] + Drop(b, 3);
      }
    }
  }

  /** Decoding what `Base64.encode` produced gives the input back, up to CR LF becoming LF. */
  lemma EncodeDecodeRoundTrip(s: Text)
    ensures Decoded(Encoded(s)) == NormalizeNewlines(s)
    ensures NoCRLF(s) ==> Decoded(Encoded(s)) == s
  {
    var bytes := Utf8Units(NormalizeNewlines(s));
    Utf8UnitsBytes(NormalizeNewlines(s));
    GroupsRoundTrip(bytes);
    FilterAll(EncodeGroups(bytes), IsKeyUnit);
    Utf8RoundTrip(NormalizeNewlines(s));
    if NoCRLF(s) {
      NormalizeNewlinesIdentity(s);
    }
  }

  /** The output of `Base64.encode` is `4 * ceil(n / 3)` alphabet characters for `n` UTF-8 units, closed by exactly `PadCount(n)` pads. */
  lemma EncodedShape(s: Text)
    ensures |Encoded(s)| == 4 * ((|Utf8Units(NormalizeNewlines(s))| + 2) / 3)
    ensures AllKeyUnits(Encoded(s))
    ensures PadsLast(Encoded(s), PadCount(|Utf8Units(NormalizeNewlines(s))|))
    ensures forall k :: 0 <= k < |Encoded(s)| && Encoded(s)[k] == Pad ==> |Encoded(s)| - 2 <= k
  {
    Utf8UnitsBytes(NormalizeNewlines(s));
    EncodeGroupsShape(Utf8Units(NormalizeNewlines(s)));
    EncodeGroupsPadding(Utf8Units(NormalizeNewlines(s)));
  }

  /** Characters outside `[A-Za-z0-9+/=]` do not change what `Base64.decode` returns. */
  lemma StripIgnoresForeign(a: Text, c: CodeUnit, b: Text)
    requires !IsKeyUnit(c)
    ensures Strip(a + [c] + b) == Strip(a + b)
  {
    FilterAppend(a + [c], b, IsKeyUnit);
    FilterAppend(a, [c], IsKeyUnit);
    FilterAppend(a, b, IsKeyUnit);
    assert [c][1..] == [];
    assert Filter([c], IsKeyUnit) == [];
  }

  lemma DecodeIgnoresForeign(a: Text, c: CodeUnit, b: Text)
    requires !IsKeyUnit(c)
    ensures Decoded(a + [c] + b) == Decoded(a + b)
  {
    StripIgnoresForeign(a, c, b);
  }

  /** The three-byte group `Tes` and the one-byte tail `t` give the alphabet indices 21, 6, 21, 51 and 29, 0, pad, pad. */
  lemma EncodeGroupsExample(test: Text, encoded: Text)
    requires test == ['T' as int, 'e' as int, 's' as int, 't' as int]
    requires encoded == ['V' as int, 'G' as int, 'V' as int, 'z' as int, 'd' as int, 'A' as int, '=' as int, '=' as int]
    ensures AllBytes(test) && EncodeGroups(test) == encoded
  {
    var rest := Drop(test, 3);
    assert rest == ['t' as int];
    assert EncodeIndices(test, 0) == (21, 6, 21, 51);
    assert EncodeIndices(rest, 0) == (29, 0, 64, 64);
    KeyAtValue(21);
    KeyAtValue(6);
    KeyAtValue(51);
    KeyAtValue(29);
    KeyAtValue(0);
    KeyAtValue(64);
    assert EncodeGroups(rest) == EncodeGroupAt(rest, 0);
  }

  /** `Base64.encode("Test")` is `"VGVzdA=="`. */
  lemma EncodeExample(test: Text, encoded: Text)
    requires test == ['T' as int, 'e' as int, 's' as int, 't' as int]
    requires encoded == ['V' as int, 'G' as int, 'V' as int, 'z' as int, 'd' as int, 'A' as int, '=' as int, '=' as int]
    ensures Encoded(test) == encoded
  {
    assert NoCRLF(test);
    NormalizeNewlinesIdentity(test);
    Utf8UnitsAscii(test);
    EncodeGroupsExample(test, encoded);
  }

  /** ... and `"VGVzdA=="` decodes back to `"Test"`. */
  lemma DecodeExample(test: Text, encoded: Text)
    requires test == ['T' as int, 'e' as int, 's' as int, 't' as int]
    requires encoded == ['V' as int, 'G' as int, 'V' as int, 'z' as int, 'd' as int, 'A' as int, '=' as int, '=' as int]
    ensures Decoded(encoded) == test
  {
    EncodeExample(test, encoded);
    assert NoCRLF(test);
    EncodeDecodeRoundTrip(test);
  }
}
