/**
 * `Server.uuid(prefix)` of src/polyfill/Server.js: every `x` and `y` of a
 * fixed template is replaced, left to right, by the hexadecimal digit of
 * one random nibble, `y` with its two high bits forced to `10`.
 *
 * `Math.random()*16|0` is not modelled: the nibbles it would draw, one per
 * placeholder and in order, are a parameter. The result has the layout of
 * a version 4 UUID (sections 4.1.1, 4.1.3 and 4.4 of RFC 4122).
 */
module Uuid {
  import JsCore

  /** What `Math.random()*16|0` yields. */
  type Nibble = n: int | 0 <= n < 16

  const HexDigits: string := "0123456789abcdef"

  /** `v.toString(16)` for a nibble: one lower-case hexadecimal digit. */
  function HexDigit(v: Nibble): (c: char)
    ensures c in HexDigits
    ensures '0' <= c <= '9' || 'a' <= c <= 'f'
  {
    HexDigits[v]
  }

  /** The value of a lower-case hexadecimal digit, -1 for any other character. */
  function HexValue(c: char): int {
    if '0' <= c <= '9' then c as int - '0' as int
    else if 'a' <= c <= 'f' then c as int - 'a' as int + 10
    else -1
  }

  /** Reading a digit back gives the nibble it was written from. */
  lemma HexValueDigit(v: Nibble)
    ensures HexValue(HexDigit(v)) == v
  {
  }

  /** `r & 0x3 | 0x8`: the variant bits `10` over the two low bits of `r`. */
  function Variant(r: Nibble): (v: Nibble)
    ensures 8 <= v < 12
  {
    (((r as bv8) & 0x3) | 0x8) as int
  }

  /** The variant keeps the two low bits of the nibble and sets the high two to `10`. */
  lemma VariantBits(r: Nibble)
    ensures Variant(r) == 8 + r % 4
  {
    var b := r as bv8;
    assert (b & 0x3) | 0x8 == (b & 0x3) + 0x8;
    assert (b & 0x3) as int == r % 4;
  }

  // ---------------------------------------------------------------------
  // The replace over the template
  // ---------------------------------------------------------------------

  predicate IsPlaceholder(c: char) {
    c == 'x' || c == 'y'
  }

  /** The characters `/[xy]/g` matches in `t`, in order. */
  function Slots(t: string): (s: string)
    ensures |s| <= |t|
    ensures forall j :: 0 <= j < |s| ==> IsPlaceholder(s[j])
  {
    if t == [] then []
    else if IsPlaceholder(t[0]) then [t[0]] + Slots(t[1..])
    else Slots(t[1..])
  }

  /** The digit the callback returns for placeholder `c` and nibble `r`. */
  function Replacement(c: char, r: Nibble): char {
    if c == 'x' then HexDigit(r) else HexDigit(Variant(r))
  }

  /** `t.replace(/[xy]/g, ...)` with the `k`-th placeholder given the `k`-th nibble. */
  function Fill(t: string, nibbles: seq<Nibble>): (u: string)
    requires |nibbles| == |Slots(t)|
    ensures |u| == |t|
  {
    if t == [] then []
    else if IsPlaceholder(t[0]) then [Replacement(t[0], nibbles[0])] + Fill(t[1..], nibbles[1..])
    else [t[0]] + Fill(t[1..], nibbles)
  }

  /** Every placeholder is replaced from its own nibble, in order; every other character is kept. */
  lemma {:induction false} FillAt(t: string, nibbles: seq<Nibble>, i: nat)
    requires |nibbles| == |Slots(t)| && i < |t|
    ensures |Slots(t[..i])| <= |Slots(t)|
    ensures IsPlaceholder(t[i]) ==> (|Slots(t[..i])| < |nibbles|
      && Fill(t, nibbles)[i] == Replacement(t[i], nibbles[|Slots(t[..i])|]))
    ensures !IsPlaceholder(t[i]) ==> Fill(t, nibbles)[i] == t[i]
    decreases i
  {
    if i > 0 {
      var k := if IsPlaceholder(t[0]) then 1 else 0;
      FillAt(t[1..], nibbles[k..], i - 1);
      assert t[1..][..i - 1] == t[..i][1..];
      assert t[1..][i - 1] == t[i];
    }
  }

  /** Two nibbles give the same digit in slot `c`: equal for `x`, equal low bits for `y`. */
  predicate SameDigit(c: char, r: Nibble, s: Nibble) {
    if c == 'x' then r == s else r % 4 == s % 4
  }

  lemma ReplacementSame(c: char, r: Nibble, s: Nibble)
    requires IsPlaceholder(c)
    ensures Replacement(c, r) == Replacement(c, s) <==> SameDigit(c, r, s)
  {
    HexValueDigit(r);
    HexValueDigit(s);
    VariantBits(r);
    VariantBits(s);
    if c == 'y' {
      HexValueDigit(Variant(r));
      HexValueDigit(Variant(s));
    }
  }

  /** Two draws fill a template alike exactly when they agree slot by slot: no nibble is lost. */
  lemma {:induction false} FillSame(t: string, a: seq<Nibble>, b: seq<Nibble>)
    requires |a| == |Slots(t)| && |b| == |Slots(t)|
    ensures Fill(t, a) == Fill(t, b) <==> forall j :: 0 <= j < |a| ==> SameDigit(Slots(t)[j], a[j], b[j])
  {
    if t != [] {
      var k := if IsPlaceholder(t[0]) then 1 else 0;
      FillSame(t[1..], a[k..], b[k..]);
      var fa, fb := Fill(t, a), Fill(t, b);
      assert fa == fb <==> fa[0] == fb[0] && fa[1..] == fb[1..];
      if k == 1 {
        ReplacementSame(t[0], a[0], b[0]);
        assert forall j :: 1 <= j < |a| ==> a[k..][j - 1] == a[j] && b[k..][j - 1] == b[j];
      }
    }
  }

  // ---------------------------------------------------------------------
  // The template and Server.uuid
  // ---------------------------------------------------------------------

  /** `xxxxxxxx-xxxx-4xxx-yxxx-xxxxxxxxxxxx`, written group by group. */
  const Template: string :=
    JsCore.Repeat('x', 8) + "-" + JsCore.Repeat('x', 4) + "-" +
    "4" + JsCore.Repeat('x', 3) + "-" + "y" + JsCore.Repeat('x', 3) + "-" +
    JsCore.Repeat('x', 12)

  /** The layout of section 4.4 of RFC 4122 for a version 4 UUID: dashes, the version digit, the variant slot. */
  function Layout(i: nat): char {
    if i == 8 || i == 13 || i == 18 || i == 23 then '-'
    else if i == 14 then '4'
    else if i == 19 then 'y'
    else 'x'
  }

  /** The template is 36 characters of that layout. */
  lemma TemplateLayout()
    ensures |Template| == 36
    ensures forall i :: 0 <= i < 36 ==> Template[i] == Layout(i)
  {
  }

  lemma {:induction false} SlotsAppend(a: string, b: string)
    ensures Slots(a + b) == Slots(a) + Slots(b)
    decreases |a|
  {
    if a != [] {
      assert (a + b)[0] == a[0] && (a + b)[1..] == a[1..] + b;
      SlotsAppend(a[1..], b);
      if IsPlaceholder(a[0]) {
        assert [a[0]] + (Slots(a[1..]) + Slots(b)) == ([a[0]] + Slots(a[1..])) + Slots(b);
      }
    } else {
      assert a + b == b;
    }
  }

  lemma {:induction false} SlotsPlaceholders(n: nat)
    ensures Slots(JsCore.Repeat('x', n)) == JsCore.Repeat('x', n)
  {
    if n > 0 {
      assert JsCore.Repeat('x', n)[1..] == JsCore.Repeat('x', n - 1);
      SlotsPlaceholders(n - 1);
    }
  }

  /** A placeholder at `i` is slot number `|Slots(t[..i])|`. */
  lemma SlotAt(t: string, i: nat)
    requires i < |t| && IsPlaceholder(t[i])
    ensures |Slots(t[..i])| < |Slots(t)| && Slots(t)[|Slots(t[..i])|] == t[i]
  {
    assert t == t[..i] + ([t[i]] + t[i + 1..]);
    SlotsAppend(t[..i], [t[i]] + t[i + 1..]);
    SlotsAppend([t[i]], t[i + 1..]);
  }

  /** How many of the first `i` layout positions are placeholders: all but 8, 13, 14, 18 and 23. */
  function SlotIndex(i: nat): int {
    i - (if i > 8 then 1 else 0) - (if i > 13 then 1 else 0) - (if i > 14 then 1 else 0)
      - (if i > 18 then 1 else 0) - (if i > 23 then 1 else 0)
  }

  /** The placeholder at position `i` takes nibble `SlotIndex(i)`. */
  lemma {:induction false} SlotsBefore(i: nat)
    requires i <= 36
    ensures |Slots(Template[..i])| == SlotIndex(i)
  {
    TemplateLayout();
    if i > 0 {
      SlotsBefore(i - 1);
      assert Template[..i] == Template[..i - 1] + [Template[i - 1]];
      SlotsAppend(Template[..i - 1], [Template[i - 1]]);
    }
  }

  /** The position of slot `j`: the inverse of `SlotIndex`. */
  function Position(j: nat): nat {
    j + (if j >= 8 then 1 else 0) + (if j >= 12 then 2 else 0) + (if j >= 15 then 1 else 0)
      + (if j >= 19 then 1 else 0)
  }

  /** The template holds 31 slots: fifteen `x`, the variant `y`, and fifteen `x`. */
  lemma TemplateSlots()
    ensures |Slots(Template)| == 31
    ensures forall j :: 0 <= j < 31 ==> Slots(Template)[j] == if j == 15 then 'y' else 'x'
  {
    TemplateLayout();
    SlotsBefore(36);
    assert Template[..36] == Template;
    forall j | 0 <= j < 31
      ensures Slots(Template)[j] == if j == 15 then 'y' else 'x'
    {
      SlotsBefore(Position(j));
      SlotAt(Template, Position(j));
    }
  }

  /** `Server.uuid(prefix)`: the filled template, after `prefix` when it is truthy (non-empty). */
  function Uuid(nibbles: seq<Nibble>, prefix: string): string
    requires |nibbles| == 31
  {
    TemplateSlots();
    var id := Fill(Template, nibbles);
    if prefix != [] then prefix + id else id
  }

  /**
   * Without a prefix: 36 characters, `-` exactly at 8, 13, 18 and 23, the
   * version `4` at 14, the variant digit (8, 9, a or b) from nibble 15 at 19,
   * and at every other position the lower-case digit of nibble `SlotIndex(i)`.
   */
  lemma UuidLayout(nibbles: seq<Nibble>)
    requires |nibbles| == 31
    ensures |Uuid(nibbles, [])| == 36
    ensures forall i :: 0 <= i < 36 ==> (Uuid(nibbles, [])[i] == '-' <==> i == 8 || i == 13 || i == 18 || i == 23)
    ensures Uuid(nibbles, [])[14] == '4'
    ensures Uuid(nibbles, [])[19] == HexDigit(8 + nibbles[15] % 4) && Uuid(nibbles, [])[19] in "89ab"
    ensures forall i :: 0 <= i < 36 && Layout(i) == 'x' ==>
      0 <= SlotIndex(i) < |nibbles| && Uuid(nibbles, [])[i] == HexDigit(nibbles[SlotIndex(i)])
  {
    TemplateLayout();
    TemplateSlots();
    var u := Uuid(nibbles, []);
    forall i | 0 <= i < 36
      ensures (u[i] == '-' <==> i == 8 || i == 13 || i == 18 || i == 23)
      ensures i == 14 ==> u[i] == '4'
      ensures i == 19 ==> u[i] == HexDigit(8 + nibbles[15] % 4)
      ensures Layout(i) == 'x' ==> 0 <= SlotIndex(i) < |nibbles| && u[i] == HexDigit(nibbles[SlotIndex(i)])
    {
      FillAt(Template, nibbles, i);
      SlotsBefore(i);
      if i == 19 {
        VariantBits(nibbles[15]);
      }
    }
    assert HexDigit(8 + nibbles[15] % 4) in "89ab";
  }

  /** A truthy prefix comes first, verbatim; an empty one adds nothing. */
  lemma UuidPrefix(nibbles: seq<Nibble>, prefix: string)
    requires |nibbles| == 31
    ensures |Uuid(nibbles, prefix)| == |prefix| + 36
    ensures Uuid(nibbles, prefix)[..|prefix|] == prefix
    ensures Uuid(nibbles, prefix)[|prefix|..] == Uuid(nibbles, [])
  {
    TemplateLayout();
  }

  /** Two draws give the same id exactly when they agree on every nibble but 15, and on its low two bits. */
  lemma UuidSame(a: seq<Nibble>, b: seq<Nibble>, prefix: string)
    requires |a| == 31 && |b| == 31
    ensures Uuid(a, prefix) == Uuid(b, prefix) <==>
      (forall j :: 0 <= j < 31 && j != 15 ==> a[j] == b[j]) && a[15] % 4 == b[15] % 4
  {
    TemplateSlots();
    FillSame(Template, a, b);
    UuidPrefix(a, prefix);
    UuidPrefix(b, prefix);
  }
}
