/**
 * The Array helpers of src/polyfill/Array.js.
 *
 * Elements are integer-valued numbers or strings. Methods of the receiver
 * that splice it in place are methods of the class `JsArray`; the helpers
 * that only read it take its elements as a sequence.
 */
module ArrayExt {
  import opened Wrappers
  import opened JsCore

  /** An array element: an integer-valued number or a string. */
  datatype Value = Num(n: int) | Str(s: string)

  /** An argument that must be an array (`Array.isArray`), or any other value. */
  datatype Arg = ArrayArg(items: seq<Value>) | NotArray(v: Value)

  /** The `TypeError` thrown by `Array.diff` and `Array.same`. */
  datatype Error = TypeError

  // ---------------------------------------------------------------------
  // Equality
  // ---------------------------------------------------------------------

  /**
   * `ToNumber` applied to a string, for the integer literals it accepts:
   * white space around the literal is ignored, the empty string is 0, and
   * an optional sign followed by decimal digits is read. `None` stands for
   * NaN and for the forms this model does not read (see README).
   */
  function StringToNumber(s: string): Option<int> {
    var t := TrimEnd(TrimStart(s));
    if t == [] then Some(0)
    else if t[0] == '-' && |t| > 1 && AllDigits(t[1..]) then Some(-(DigitsValue(t[1..]) as int))
    else if t[0] == '+' && |t| > 1 && AllDigits(t[1..]) then Some(DigitsValue(t[1..]))
    else if AllDigits(t) then Some(DigitsValue(t))
    else None
  }

  /** A string of decimal digits converts to the number it writes. */
  lemma StringToNumberDigits(s: string)
    requires AllDigits(s) && s != []
    ensures StringToNumber(s) == Some(DigitsValue(s))
  {
    assert !IsSpace(s[0]) && !IsSpace(s[|s| - 1]);
    assert TrimStart(s) == s;
    assert TrimEnd(s) == s;
  }

  /** `==`: a number and a string are compared after converting the string to a number. */
  predicate LooseEquals(a: Value, b: Value) {
    match (a, b)
    case (Num(x), Num(y)) => x == y
    case (Str(x), Str(y)) => x == y
    case (Num(x), Str(y)) => StringToNumber(y) == Some(x)
    case (Str(x), Num(y)) => StringToNumber(x) == Some(y)
  }

  /** `===` when `strict`, `==` otherwise. */
  predicate Equals(a: Value, b: Value, strict: bool) {
    if strict then a == b else LooseEquals(a, b)
  }

  /** Some element of `s` equals `x`. */
  predicate Member(s: seq<Value>, x: Value, strict: bool) {
    exists k :: 0 <= k < |s| && Equals(s[k], x, strict)
  }

  /** Strict equality implies loose equality, so a strict hit is also a loose hit. */
  lemma StrictMemberIsLoose(s: seq<Value>, x: Value)
    ensures Member(s, x, true) ==> Member(s, x, false)
  {
    if Member(s, x, true) {
      var k :| 0 <= k < |s| && s[k] == x;
      assert Equals(s[k], x, false);
    }
  }

  /** The property key an element is coerced to (`ToString`). */
  function Key(v: Value): string {
    match v
    case Num(n) => IntToString(n)
    case Str(s) => s
  }

  // ---------------------------------------------------------------------
  // contains, indexOf
  // ---------------------------------------------------------------------

  /** `arr.contains(element, strict)`: scans from the last element down. */
  method Contains(a: seq<Value>, element: Value, strict: bool) returns (found: bool)
    ensures found <==> Member(a, element, strict)
  {
    var i := |a|;
    while i > 0
      invariant 0 <= i <= |a|
      invariant forall k :: i <= k < |a| ==> !Equals(a[k], element, strict)
    {
      var hit := Equals(a[i - 1], element, strict);
      if hit {
        return true;
      }
      NoHitStep(a, i, element, strict);
      i := i - 1;
    }
    return false;
  }

  /** The loop of `contains` steps down past an element that does not match. */
  lemma NoHitStep(a: seq<Value>, i: nat, element: Value, strict: bool)
    requires 0 < i <= |a| && !Equals(a[i - 1], element, strict)
    requires forall k :: i <= k < |a| ==> !Equals(a[k], element, strict)
    ensures forall k :: i - 1 <= k < |a| ==> !Equals(a[k], element, strict)
  {
  }

  /** `[1, 2, 3, 4, 5].contains('1')` holds: the string is converted to a number. */
  lemma ContainsLooseExample(a: seq<Value>)
    requires a == [Num(1), Num(2), Num(3), Num(4), Num(5)]
    ensures Member(a, Str("1"), false)
  {
    assert AllDigits("1");
    assert DigitsValue("1") == 1;
    StringToNumberDigits("1");
    assert Equals(a[0], Str("1"), false);
  }

  /** `[1, 2, 3, 4, 5].contains('1', true)` does not hold: no element is the string. */
  lemma ContainsStrictExample(a: seq<Value>)
    requires a == [Num(1), Num(2), Num(3), Num(4), Num(5)]
    ensures !Member(a, Str("1"), true)
  {
    forall k | 0 <= k < |a|
      ensures !Equals(a[k], Str("1"), true)
    {
      assert a[k].Num?;
    }
  }

  /** The index the search starts from: `max(n >= 0 ? n : len - |n|, 0)`. */
  function SearchStart(len: nat, fromIndex: int): nat {
    if fromIndex >= 0 then fromIndex else if len + fromIndex >= 0 then len + fromIndex else 0
  }

  /**
   * `arr.indexOf(searchElement, fromIndex)` (the shim): the least index at
   * or after the start holding a strictly equal element, else -1.
   * An absent `fromIndex` is 0.
   */
  method IndexOfElement(a: seq<Value>, searchElement: Value, fromIndex: int) returns (r: int)
    ensures r == -1 <==> forall k :: SearchStart(|a|, fromIndex) <= k < |a| ==> a[k] != searchElement
    ensures r != -1 ==> SearchStart(|a|, fromIndex) <= r < |a| && a[r] == searchElement
    ensures r != -1 ==> forall k :: SearchStart(|a|, fromIndex) <= k < r ==> a[k] != searchElement
  {
    var len := |a|;
    if len == 0 {
      return -1;
    }
    var n := fromIndex;
    if n >= len {
      return -1;
    }
    var k := if n >= 0 then n else len - (-n);
    if k < 0 {
      k := 0;
    }
    while k < len
      invariant SearchStart(len, fromIndex) <= k <= len
      invariant forall j :: SearchStart(len, fromIndex) <= j < k ==> a[j] != searchElement
    {
      if a[k] == searchElement {
        return k;
      }
      k := k + 1;
    }
    return -1;
  }

  // ---------------------------------------------------------------------
  // The receiver, spliced in place: remove, empty, copy
  // ---------------------------------------------------------------------

  /** The position `splice(start, …)` starts at. */
  function SpliceStart(len: nat, start: int): nat {
    if start < 0 then (if len + start >= 0 then len + start else 0)
    else if start <= len then start
    else len
  }

  /** Loosely contained in `t`. */
  function In(t: seq<Value>): Value -> bool {
    x => Member(t, x, false)
  }

  /** Not loosely contained in `t`. */
  function NotIn(t: seq<Value>): Value -> bool {
    x => !Member(t, x, false)
  }

  /** The elements of `s` not loosely contained in `t`. */
  function Without(s: seq<Value>, t: seq<Value>): seq<Value> {
    Filter(s, NotIn(t))
  }

  /** The elements of `s` loosely contained in `t`. */
  function Within(s: seq<Value>, t: seq<Value>): seq<Value> {
    Filter(s, In(t))
  }

  /** A JavaScript array whose methods change it in place. */
  class JsArray {
    var items: seq<Value>

    constructor (items: seq<Value>)
      ensures this.items == items
    {
      this.items := items;
    }

    /**
     * `remove(index, true)`: `splice(index, 1)`; a negative index counts from
     * the end, and one before the start is clamped to 0.
     */
    method RemoveAt(index: int)
      modifies this
      ensures SpliceStart(|old(items)|, index) < |old(items)| ==>
        items == old(items)[..SpliceStart(|old(items)|, index)] + old(items)[SpliceStart(|old(items)|, index) + 1..]
      ensures SpliceStart(|old(items)|, index) == |old(items)| ==> items == old(items)
      ensures -|old(items)| <= index < 0 ==>
        items == old(items)[..|old(items)| + index] + old(items)[|old(items)| + index + 1..]
      ensures index >= |old(items)| ==> items == old(items)
      ensures index < -|old(items)| && old(items) != [] ==> items == old(items)[1..]
    {
      var k := SpliceStart(|items|, index);
      if k < |items| {
        items := items[..k] + items[k + 1..];
      }
    }

    /** `remove(element)`: deletes the first strictly equal element, if there is one. */
    method RemoveValue(element: Value)
      modifies this
      ensures element !in old(items) ==> items == old(items)
      ensures element in old(items) ==>
        exists k :: 0 <= k < |old(items)| && old(items)[k] == element && element !in old(items)[..k] &&
          items == old(items)[..k] + old(items)[k + 1..]
    {
      var index := IndexOfElement(items, element, 0);
      if index > -1 {
        assert element !in items[..index];
        items := items[..index] + items[index + 1..];
      }
    }

    /** `remove(array)`: from the last element down, deletes every element `array` loosely contains. */
    method RemoveEach(elements: seq<Value>)
      modifies this
      ensures items == Without(old(items), elements)
    {
      var orig := items;
      var rest := items;
      var i := |rest| - 1;
      while i > -1
        invariant -1 <= i < |orig|
        invariant rest == orig[..i + 1] + Without(orig[i + 1..], elements)
      {
        RemoveEachStep(orig, i, NotIn(elements), rest);
        var hit := Contains(elements, rest[i], false);
        assert hit == !NotIn(elements)(orig[i]);
        if hit {
          rest := rest[..i] + rest[i + 1..];
        }
        i := i - 1;
      }
      assert orig[0..] == orig;
      items := rest;
    }

    /** `empty()`: `splice(0, length)`. */
    method Empty()
      modifies this
      ensures items == []
    {
      items := items[..0] + items[|items|..];
    }

    /** `copy()`: `slice()`, a new array with the same elements. */
    method Copy() returns (c: JsArray)
      ensures fresh(c) && c.items == items
    {
      c := new JsArray(items);
    }
  }

  /** One turn of `remove(array)`'s loop, from the last element down: the element at `i` stays exactly when it passes `keep`. */
  lemma RemoveEachStep<T>(orig: seq<T>, i: nat, keep: T -> bool, items: seq<T>)
    requires i < |orig| && items == orig[..i + 1] + Filter(orig[i + 1..], keep)
    ensures i < |items| && items[i] == orig[i]
    ensures (if keep(orig[i]) then items else items[..i] + items[i + 1..]) == orig[..i] + Filter(orig[i..], keep)
  {
    FilterSuffixStep(orig, i, keep);
    assert orig[..i + 1] == orig[..i] + [orig[i]];
    assert items[..i] == orig[..i] && items[i + 1..] == Filter(orig[i + 1..], keep);
  }

  /** Removing by index deletes exactly one element and keeps the others in order. */
  lemma {:induction false} RemoveAtDeletesOne(s: seq<Value>, k: nat)
    requires k < |s|
    ensures |s[..k] + s[k + 1..]| == |s| - 1
    ensures multiset(s[..k] + s[k + 1..]) == multiset(s) - multiset{s[k]}
    ensures IsSubsequence(s[..k] + s[k + 1..], s)
  {
    assert s == s[..k] + [s[k]] + s[k + 1..];
    DropOneIsSubsequence(s, k);
  }

  lemma {:induction false} DropOneIsSubsequence<T>(s: seq<T>, k: nat)
    requires k < |s|
    ensures IsSubsequence(s[..k] + s[k + 1..], s)
  {
    var r := s[..k] + s[k + 1..];
    if k == 0 {
      assert r == s[1..];
      SubsequenceRefl(s[1..]);
    } else {
      DropOneIsSubsequence(s[1..], k - 1);
      assert r[0] == s[0];
      assert r[1..] == s[1..][..k - 1] + s[1..][k..];
    }
  }

  lemma {:induction false} SubsequenceRefl<T>(s: seq<T>)
    ensures IsSubsequence(s, s)
  {
    if s != [] {
      SubsequenceRefl(s[1..]);
    }
  }

  /** After `remove(array)` no remaining element is loosely contained in `array`, and every other element stays. */
  lemma WithoutMembers(s: seq<Value>, t: seq<Value>, x: Value)
    ensures x in Without(s, t) <==> x in s && !Member(t, x, false)
    ensures IsSubsequence(Without(s, t), s)
  {
    FilterMembers(s, NotIn(t), x);
    FilterSubsequence(s, NotIn(t));
  }

  // ---------------------------------------------------------------------
  // random, shuffle
  // ---------------------------------------------------------------------

  /** The indices drawn by `Math.floor(Math.random() * (len - i)) + i`, one per position. */
  predicate ValidDraws(len: nat, draws: seq<int>) {
    |draws| == len && forall i :: 0 <= i < len ==> i <= draws[i] < len
  }

  function SwapAt(s: seq<Value>, i: nat, j: nat): (r: seq<Value>)
    requires i < |s| && j < |s|
    ensures |r| == |s| && multiset(r) == multiset(s)
  {
    s[i := s[j]][j := s[i]]
  }

  /** Fisher–Yates from position `i` on: swap each position with its drawn partner. */
  function ShuffleFrom(s: seq<Value>, draws: seq<int>, i: nat): (r: seq<Value>)
    requires ValidDraws(|s|, draws) && i <= |s|
    ensures |r| == |s|
    decreases |s| - i
  {
    if i == |s| then s
    else ShuffleFrom(if draws[i] != i then SwapAt(s, i, draws[i]) else s, draws, i + 1)
  }

  /** The shuffle is a permutation of its input. */
  lemma {:induction false} ShufflePermutes(s: seq<Value>, draws: seq<int>, i: nat)
    requires ValidDraws(|s|, draws) && i <= |s|
    ensures multiset(ShuffleFrom(s, draws, i)) == multiset(s)
    decreases |s| - i
  {
    if i < |s| {
      var next := if draws[i] != i then SwapAt(s, i, draws[i]) else s;
      assert ShuffleFrom(s, draws, i) == ShuffleFrom(next, draws, i + 1);
      ShufflePermutes(next, draws, i + 1);
    }
  }

  /** `length` when `0 < length < len`, otherwise `len`. */
  function ResultLength(len: nat, length: int): nat {
    if 0 < length < len then length else len
  }

  /**
   * What `random(length)` returns for the given draws: the first
   * `ResultLength` elements of the shuffle. They are drawn from `a`, and
   * they are all of `a` when the full length is asked for.
   */
  function RandomPick(a: seq<Value>, length: int, draws: seq<int>): (r: seq<Value>)
    requires ValidDraws(|a|, draws)
    ensures |r| == ResultLength(|a|, length)
    ensures multiset(r) <= multiset(a)
    ensures ResultLength(|a|, length) == |a| ==> multiset(r) == multiset(a)
  {
    ShuffledPrefix(a, draws, ResultLength(|a|, length));
    ShuffleFrom(a, draws, 0)[..ResultLength(|a|, length)]
  }

  /** `arr.random(length)`: shuffles a copy, then returns its first `ResultLength` elements. */
  method Random(a: seq<Value>, length: int, draws: seq<int>) returns (r: seq<Value>)
    requires ValidDraws(|a|, draws)
    ensures r == RandomPick(a, length, draws)
  {
    var len := |a|;
    var arr := new Value[len](k requires 0 <= k < len => a[k]);
    assert arr[..] == a;
    ShuffleInPlace(arr, draws);
    var end := len;
    if length > 0 && length < len {
      end := length;
    }
    r := arr[..end];
  }

  /** The swap loop of `random`: each position `i` in turn swaps with its drawn partner. */
  method ShuffleInPlace(arr: array<Value>, draws: seq<int>)
    requires ValidDraws(arr.Length, draws)
    modifies arr
    ensures arr[..] == ShuffleFrom(old(arr[..]), draws, 0)
  {
    ghost var start := arr[..];
    var i := 0;
    while i < arr.Length
      invariant 0 <= i <= arr.Length
      invariant ShuffleFrom(arr[..], draws, i) == ShuffleFrom(start, draws, 0)
    {
      var index := draws[i];
      ghost var before := arr[..];
      ShuffleStep(before, draws, i);
      if index != i {
        var temp := arr[i];
        arr[i] := arr[index];
        assert arr[..] == before[i := before[index]];
        arr[index] := temp;
        assert arr[..] == before[i := before[index]][index := before[i]];
      }
      i := i + 1;
    }
  }

  /** One swap of the shuffle loop. */
  lemma ShuffleStep(s: seq<Value>, draws: seq<int>, i: nat)
    requires ValidDraws(|s|, draws) && i < |s|
    ensures ShuffleFrom(s, draws, i) == ShuffleFrom(if draws[i] != i then SwapAt(s, i, draws[i]) else s, draws, i + 1)
  {
  }

  /** A prefix of the shuffle holds elements of the input, and the whole shuffle holds all of them. */
  lemma ShuffledPrefix(a: seq<Value>, draws: seq<int>, end: nat)
    requires ValidDraws(|a|, draws) && end <= |a|
    ensures multiset(ShuffleFrom(a, draws, 0)[..end]) <= multiset(a)
    ensures end == |a| ==> multiset(ShuffleFrom(a, draws, 0)[..end]) == multiset(a)
  {
    var s := ShuffleFrom(a, draws, 0);
    ShufflePermutes(a, draws, 0);
    assert s == s[..end] + s[end..];
  }

  /** `arr.shuffle(length)`: `random` on a copy of the receiver. */
  method Shuffle(a: seq<Value>, length: int, draws: seq<int>) returns (r: seq<Value>)
    requires ValidDraws(|a|, draws)
    ensures r == RandomPick(a, length, draws)
  {
    var copy := a[0..];
    r := Random(copy, length, draws);
  }

  // ---------------------------------------------------------------------
  // unique
  // ---------------------------------------------------------------------

  function Keys(s: seq<Value>): set<string> {
    set x | x in s :: Key(x)
  }

  /** Keeps each element whose key is not yet in `seen`, adding its key to `seen`. */
  function UniqueFrom(s: seq<Value>, seen: set<string>): seq<Value> {
    if s == [] then []
    else if Key(s[0]) in seen then UniqueFrom(s[1..], seen)
    else [s[0]] + UniqueFrom(s[1..], seen + {Key(s[0])})
  }

  /** No two elements of `s` share a key. */
  predicate DistinctKeys(s: seq<Value>) {
    forall i, j :: 0 <= i < j < |s| ==> Key(s[i]) != Key(s[j])
  }

  /**
   * The names a fresh object `{}` already answers with a truthy value: the
   * properties of `Object.prototype`, including the `remove` that
   * src/polyfill/Object.js adds to it. `hash[name]` is truthy for each of
   * them before anything is stored.
   */
  const InheritedNames: set<string> := {
    "constructor", "hasOwnProperty", "isPrototypeOf", "propertyIsEnumerable",
    "toLocaleString", "toString", "valueOf", "__proto__",
    "__defineGetter__", "__defineSetter__", "__lookupGetter__", "__lookupSetter__",
    "remove"
  }

  /**
   * `arr.unique()`: a `hash` object records the keys already pushed; an
   * element whose key names an inherited property counts as already seen.
   */
  method Unique(a: seq<Value>) returns (r: seq<Value>)
    ensures r == UniqueFrom(a, InheritedNames)
    ensures DistinctKeys(r) && Keys(r) == Keys(a) - InheritedNames && IsSubsequence(r, a)
  {
    r := [];
    var hash: set<string> := InheritedNames;
    var i := 0;
    while i < |a|
      invariant 0 <= i <= |a|
      invariant r + UniqueFrom(a[i..], hash) == UniqueFrom(a, InheritedNames)
      invariant hash == InheritedNames + Keys(r)
    {
      UniqueStep(a, i, r, InheritedNames, hash);
      if Key(a[i]) !in hash {
        hash := hash + {Key(a[i])};
        r := r + [a[i]];
      }
      i := i + 1;
    }
    assert a[|a|..] == [];
    UniqueFromProperties(a, InheritedNames);
  }

  /** One turn of `unique`'s loop: an element whose key is new is pushed and its key recorded. */
  lemma UniqueStep(a: seq<Value>, i: nat, r: seq<Value>, seen0: set<string>, hash: set<string>)
    requires i < |a| && hash == seen0 + Keys(r)
    ensures Key(a[i]) in hash ==> UniqueFrom(a[i..], hash) == UniqueFrom(a[i + 1..], hash)
    ensures Key(a[i]) !in hash ==>
      r + UniqueFrom(a[i..], hash) == (r + [a[i]]) + UniqueFrom(a[i + 1..], hash + {Key(a[i])}) &&
      hash + {Key(a[i])} == seen0 + Keys(r + [a[i]])
  {
    assert a[i..] == [a[i]] + a[i + 1..];
    assert a[i..][1..] == a[i + 1..];
    KeysSnoc(r, a[i]);
  }

  lemma KeysSnoc(s: seq<Value>, x: Value)
    ensures Keys(s + [x]) == Keys(s) + {Key(x)}
  {
    assert forall y :: y in s + [x] <==> y in s || y == x;
  }

  /** What `unique` keeps: distinct keys, every input key, and the input order. */
  lemma {:induction false} UniqueFromProperties(s: seq<Value>, seen: set<string>)
    ensures DistinctKeys(UniqueFrom(s, seen))
    ensures Keys(UniqueFrom(s, seen)) == Keys(s) - seen
    ensures IsSubsequence(UniqueFrom(s, seen), s)
  {
    if s != [] {
      var rest := s[1..];
      assert Keys(s) == {Key(s[0])} + Keys(rest) by {
        assert s == [s[0]] + rest;
      }
      if Key(s[0]) in seen {
        UniqueFromProperties(rest, seen);
        SubsequenceSkip(UniqueFrom(rest, seen), s);
      } else {
        var seen' := seen + {Key(s[0])};
        UniqueFromProperties(rest, seen');
        var tail := UniqueFrom(rest, seen');
        var r := [s[0]] + tail;
        assert r[1..] == tail;
        forall i, j | 0 <= i < j < |r| ensures Key(r[i]) != Key(r[j]) {
          if i == 0 {
            assert r[j] in tail;
          } else {
            assert r[i] == tail[i - 1] && r[j] == tail[j - 1];
          }
        }
        assert Keys(r) == {Key(s[0])} + Keys(tail) by {
          assert forall x :: x in r <==> x == s[0] || x in tail;
        }
      }
    }
  }

  /** The element kept for each key is its first occurrence in the input. */
  lemma {:induction false} UniqueKeepsFirst(s: seq<Value>, seen: set<string>, k: nat)
    requires k < |s| && Key(s[k]) !in seen
    requires forall j :: 0 <= j < k ==> Key(s[j]) != Key(s[k])
    ensures s[k] in UniqueFrom(s, seen)
  {
    if k == 0 {
    } else {
      var seen' := if Key(s[0]) in seen then seen else seen + {Key(s[0])};
      assert s[1..][k - 1] == s[k];
      UniqueKeepsFirst(s[1..], seen', k - 1);
    }
  }

  /** A sequence whose keys are distinct and unseen passes through unchanged. */
  lemma {:induction false} UniqueFromDistinct(s: seq<Value>, seen: set<string>)
    requires DistinctKeys(s) && Keys(s) !! seen
    ensures UniqueFrom(s, seen) == s
  {
    if s != [] {
      assert s[0] in s;
      var seen' := seen + {Key(s[0])};
      forall x | x in s[1..] ensures Key(x) !in seen' {
        var j :| 0 <= j < |s[1..]| && s[1..][j] == x;
        assert s[j + 1] == x;
      }
      UniqueFromDistinct(s[1..], seen');
    }
  }

  /** `unique` is idempotent. */
  lemma UniqueIdempotent(s: seq<Value>, seen: set<string>)
    ensures UniqueFrom(UniqueFrom(s, seen), seen) == UniqueFrom(s, seen)
  {
    UniqueFromProperties(s, seen);
    UniqueFromDistinct(UniqueFrom(s, seen), seen);
  }

  /** `['1', 1, 2].unique()` is `['1', 2]`: `1` and `'1'` share the key `'1'`. */
  lemma UniqueExample(seen: set<string>)
    requires seen == InheritedNames
    ensures UniqueFrom([Str("1"), Num(1), Num(2)], seen) == [Str("1"), Num(2)]
  {
    assert DigitChar(1) == '1' && DigitChar(2) == '2';
    assert Key(Num(1)) == "1";
    assert Key(Num(2)) == "2";
    assert "1" !in seen && "2" !in seen;
    var s := [Str("1"), Num(1), Num(2)];
    var seen1 := seen + {"1"};
    assert s[1..] == [Num(1), Num(2)];
    assert [Num(1), Num(2)][1..] == [Num(2)];
    assert UniqueFrom([Num(2)], seen1) == [Num(2)];
    assert UniqueFrom([Num(1), Num(2)], seen1) == [Num(2)];
    assert Key(s[0]) == "1" && s[0] == Str("1");
    assert UniqueFrom(s, seen) == [Str("1")] + UniqueFrom([Num(1), Num(2)], seen1);
  }

  /** `['constructor', 'remove', 'a'].unique()` is `['a']`: the first two name inherited properties. */
  lemma UniqueInheritedExample(c: string, rm: string, x: string, seen: set<string>)
    requires c == "constructor" && rm == "remove" && x == "a" && seen == InheritedNames
    ensures UniqueFrom([Str(c), Str(rm), Str(x)], seen) == [Str(x)]
  {
    assert c in seen && rm in seen && x !in seen;
    var s := [Str(c), Str(rm), Str(x)];
    assert s[1..] == [Str(rm), Str(x)] && s[1..][1..] == [Str(x)];
    assert UniqueFrom([Str(x)], seen) == [Str(x)];
  }

  // ---------------------------------------------------------------------
  // Array.diff, Array.same, Array.isEmpty
  // ---------------------------------------------------------------------

  /** `Array.diff(arr1, arr2, onlyFirst)` */
  function Diff(arr1: Arg, arr2: Arg, onlyFirst: bool): (r: Result<seq<Value>, Error>)
    ensures r.Failure? <==> !arr1.ArrayArg? || !arr2.ArrayArg?
  {
    if !arr1.ArrayArg? || !arr2.ArrayArg? then Failure(TypeError)
    else if onlyFirst then Success(Without(arr1.items, arr2.items))
    else Success(Without(arr1.items, arr2.items) + Without(arr2.items, arr1.items))
  }

  /** `Array.same(arr1, arr2)` */
  function Same(arr1: Arg, arr2: Arg): (r: Result<seq<Value>, Error>)
    ensures r.Failure? <==> !arr1.ArrayArg? || !arr2.ArrayArg?
  {
    if !arr1.ArrayArg? || !arr2.ArrayArg? then Failure(TypeError)
    else Success(Within(arr1.items, arr2.items))
  }

  /** The symmetric difference holds exactly the elements found on one side only. */
  lemma DiffMembers(a: seq<Value>, b: seq<Value>, x: Value)
    ensures Diff(ArrayArg(a), ArrayArg(b), true).Success?
    ensures x in Diff(ArrayArg(a), ArrayArg(b), true).value <==> x in a && !Member(b, x, false)
    ensures x in Diff(ArrayArg(a), ArrayArg(b), false).value <==>
      (x in a && !Member(b, x, false)) || (x in b && !Member(a, x, false))
  {
    WithoutMembers(a, b, x);
    WithoutMembers(b, a, x);
  }

  /** `same` keeps exactly the elements of `arr1` found in `arr2`, in `arr1`'s order. */
  lemma SameMembers(a: seq<Value>, b: seq<Value>, x: Value)
    ensures Same(ArrayArg(a), ArrayArg(b)).Success?
    ensures x in Same(ArrayArg(a), ArrayArg(b)).value <==> x in a && Member(b, x, false)
    ensures IsSubsequence(Same(ArrayArg(a), ArrayArg(b)).value, a)
  {
    FilterMembers(a, In(b), x);
    FilterSubsequence(a, In(b));
  }

  /** `same` and the one-sided `diff` split `arr1` between them, element for element. */
  lemma {:induction false} SameDiffPartition(a: seq<Value>, b: seq<Value>)
    ensures |Within(a, b)| + |Without(a, b)| == |a|
    ensures multiset(Within(a, b)) + multiset(Without(a, b)) == multiset(a)
  {
    if a != [] {
      SameDiffPartition(a[1..], b);
      assert a == [a[0]] + a[1..];
    }
  }

  /** Only membership in `arr2` matters to `same`: duplicating `arr2` does not multiply the result. */
  lemma {:induction false} SameIgnoresDuplicates(a: seq<Value>, b: seq<Value>)
    ensures Within(a, b + b) == Within(a, b)
  {
    if a != [] {
      SameIgnoresDuplicates(a[1..], b);
      assert Member(b + b, a[0], false) ==> Member(b, a[0], false) by {
        if Member(b + b, a[0], false) {
          var k :| 0 <= k < |b + b| && Equals((b + b)[k], a[0], false);
          if k >= |b| { assert (b + b)[k] == b[k - |b|]; }
        }
      }
      assert Member(b, a[0], false) ==> Member(b + b, a[0], false) by {
        if Member(b, a[0], false) {
          var k :| 0 <= k < |b| && Equals(b[k], a[0], false);
          assert (b + b)[k] == b[k];
        }
      }
    }
  }

  /** With no loosely equal pair across the arrays, `same` is empty and `diff` is both arrays. */
  lemma DisjointDiff(a: seq<Value>, b: seq<Value>)
    requires forall i, j :: 0 <= i < |a| && 0 <= j < |b| ==> !LooseEquals(a[i], b[j])
    ensures Same(ArrayArg(a), ArrayArg(b)) == Success([])
    ensures Diff(ArrayArg(a), ArrayArg(b), false) == Success(a + b)
    ensures |Diff(ArrayArg(a), ArrayArg(b), false).value| == |a| + |b|
  {
    forall k | 0 <= k < |a| ensures !Member(b, a[k], false) {
      forall j | 0 <= j < |b| ensures !LooseEquals(b[j], a[k]) {
        LooseEqualsSymmetric(a[k], b[j]);
      }
    }
    forall k | 0 <= k < |b| ensures !Member(a, b[k], false) {
    }
    FilterAll(a, NotIn(b));
    FilterAll(b, NotIn(a));
    NoneKept(a, b);
  }

  lemma LooseEqualsSymmetric(x: Value, y: Value)
    ensures LooseEquals(x, y) <==> LooseEquals(y, x)
  {
  }

  lemma {:induction false} NoneKept(a: seq<Value>, b: seq<Value>)
    requires forall k :: 0 <= k < |a| ==> !Member(b, a[k], false)
    ensures Within(a, b) == []
  {
    if a != [] {
      NoneKept(a[1..], b);
    }
  }

  /** The examples in the documentation of `Array.diff`. */
  lemma DiffExample(a: seq<Value>, b: seq<Value>)
    requires a == [Str("a"), Str("b"), Str("c"), Str("d"), Str("e")]
    requires b == [Str("a"), Str("b"), Str("c"), Str("d"), Str("f")]
    ensures Diff(ArrayArg(a), ArrayArg(b), false) == Success([Str("e"), Str("f")])
    ensures Diff(ArrayArg(a), ArrayArg(b), true) == Success([Str("e")])
    ensures Diff(NotArray(Str("a")), ArrayArg(b), false) == Failure(TypeError)
  {
    DiffExampleSide(a, b);
    DiffExampleSide(b, a);
    assert Without(a, b) + Without(b, a) == [Str("e"), Str("f")];
  }

  /** `Array.diff(['a', 'b', 'c', 'd', 'e'], ['a', 'b', 'c', 'd', 'f', 'f'])` is `['e', 'f', 'f']`: duplicates are kept. */
  lemma DiffDuplicateExample(a: seq<Value>, b: seq<Value>)
    requires a == [Str("a"), Str("b"), Str("c"), Str("d"), Str("e")]
    requires b == [Str("a"), Str("b"), Str("c"), Str("d"), Str("f"), Str("f")]
    ensures Diff(ArrayArg(a), ArrayArg(b), false) == Success([Str("e"), Str("f"), Str("f")])
  {
    var shared := a[..4];
    assert a == shared + a[4..] && b == shared + b[4..];
    SharedMembers(shared, a);
    SharedMembers(shared, b);
    StrNotMember(b, a[4]);
    StrNotMember(a, b[4]);
    assert a[4..] == [a[4]] && b[4..] == [b[4], b[4]];
    WithoutShared(shared, a[4..], b);
    WithoutShared(shared, b[4..], a);
    assert Without(a, b) + Without(b, a) == [a[4], b[4], b[4]];
  }

  /** A string that differs from every element of an array of strings is not loosely contained in it. */
  lemma StrNotMember(t: seq<Value>, x: Value)
    requires x.Str? && forall k :: 0 <= k < |t| ==> t[k].Str? && t[k] != x
    ensures !Member(t, x, false)
  {
  }

  /** Every element of a string prefix is loosely contained in the whole. */
  lemma SharedMembers(shared: seq<Value>, t: seq<Value>)
    requires |shared| <= |t| && t[..|shared|] == shared
    requires forall k :: 0 <= k < |shared| ==> shared[k].Str?
    ensures forall k :: 0 <= k < |shared| ==> Member(t, shared[k], false)
  {
    forall k | 0 <= k < |shared| ensures Member(t, shared[k], false) {
      assert t[k] == shared[k];
      assert Equals(t[k], shared[k], false);
    }
  }

  /** Removing what `t` contains from `shared + rest` leaves `rest` when `t` holds all of `shared` and none of `rest`. */
  lemma WithoutShared(shared: seq<Value>, rest: seq<Value>, t: seq<Value>)
    requires forall k :: 0 <= k < |shared| ==> Member(t, shared[k], false)
    requires forall k :: 0 <= k < |rest| ==> !Member(t, rest[k], false)
    ensures Without(shared + rest, t) == rest
  {
    FilterAppend(shared, rest, NotIn(t));
    FilterNone(shared, NotIn(t));
    FilterAll(rest, NotIn(t));
  }

  /** One direction of the example: the arrays share their first four elements only. */
  lemma DiffExampleSide(a: seq<Value>, b: seq<Value>)
    requires |a| == 5 && |b| == 5 && a[..4] == b[..4]
    requires forall k :: 0 <= k < 5 ==> a[k].Str? && b[k].Str?
    requires forall k :: 0 <= k < 5 ==> a[4] != b[k]
    ensures Without(a, b) == [a[4]]
  {
    assert !Member(b, a[4], false) by {
      forall k | 0 <= k < 5 ensures !Equals(b[k], a[4], false) {
      }
    }
    forall k | 0 <= k < 4 ensures Member(b, a[k], false) {
      assert Equals(b[k], a[k], false);
    }
    assert a[4..][1..] == [];
    assert Without(a[4..], b) == [a[4]];
    assert a[3..][1..] == a[4..];
    assert Without(a[3..], b) == [a[4]];
    assert a[2..][1..] == a[3..];
    assert Without(a[2..], b) == [a[4]];
    assert a[1..][1..] == a[2..];
    assert Without(a[1..], b) == [a[4]];
  }

  /** `Array.isEmpty(arr)`: true for a non-array or an array without elements. */
  function IsEmpty(arr: Arg): (r: bool)
    ensures r <==> !arr.ArrayArg? || |arr.items| == 0
  {
    !arr.ArrayArg? || |arr.items| <= 0
  }

  // ---------------------------------------------------------------------
  // max, min, numberSort (arrays of numbers)
  // ---------------------------------------------------------------------

  /** `arr.max()`: the largest element; `undefined` (None) for an empty array. */
  method Max(a: seq<int>) returns (r: Option<int>)
    ensures r == None <==> a == []
    ensures r.Some? ==> r.value in a && forall k :: 0 <= k < |a| ==> a[k] <= r.value
  {
    if |a| == 0 {
      return None;
    }
    var value := a[0];
    var i := 1;
    while i < |a|
      invariant 1 <= i <= |a|
      invariant value in a[..i]
      invariant forall k :: 0 <= k < i ==> a[k] <= value
    {
      if a[i] > value {
        value := a[i];
      }
      i := i + 1;
    }
    assert a[..|a|] == a;
    return Some(value);
  }

  /** `arr.min()`: the smallest element; `undefined` (None) for an empty array. */
  method Min(a: seq<int>) returns (r: Option<int>)
    ensures r == None <==> a == []
    ensures r.Some? ==> r.value in a && forall k :: 0 <= k < |a| ==> r.value <= a[k]
  {
    if |a| == 0 {
      return None;
    }
    var value := a[0];
    var i := 1;
    while i < |a|
      invariant 1 <= i <= |a|
      invariant value in a[..i]
      invariant forall k :: 0 <= k < i ==> value <= a[k]
    {
      if a[i] < value {
        value := a[i];
      }
      i := i + 1;
    }
    assert a[..|a|] == a;
    return Some(value);
  }

  /** `x` may stand before `y`: the comparator `desc ? y - x : x - y` is not positive. */
  predicate InOrder(x: int, y: int, desc: bool) {
    if desc then y <= x else x <= y
  }

  predicate Sorted(s: seq<int>, desc: bool) {
    forall p, q :: 0 <= p < q < |s| ==> InOrder(s[p], s[q], desc)
  }

  /** The first element of a sorted sequence stands in order before every element of it. */
  lemma SortedHead(a: seq<int>, desc: bool, x: int)
    requires Sorted(a, desc) && x in multiset(a)
    ensures a != [] && InOrder(a[0], x, desc)
  {
    var k :| 0 <= k < |a| && a[k] == x;
    if k > 0 {
      assert InOrder(a[0], a[k], desc);
    }
  }

  /** Order between neighbours is enough: the comparator is transitive. */
  lemma {:induction false} SortedFromAdjacent(s: seq<int>, desc: bool)
    requires forall i :: 0 <= i < |s| - 1 ==> InOrder(s[i], s[i + 1], desc)
    ensures Sorted(s, desc)
  {
    if |s| > 1 {
      var t := s[1..];
      assert forall i :: 0 <= i < |t| - 1 ==> InOrder(t[i], t[i + 1], desc) by {
        forall i | 0 <= i < |t| - 1 ensures InOrder(t[i], t[i + 1], desc) {
          assert t[i] == s[i + 1] && t[i + 1] == s[i + 2];
        }
      }
      SortedFromAdjacent(t, desc);
      forall p, q | 0 <= p < q < |s| ensures InOrder(s[p], s[q], desc) {
        if p > 0 {
          assert s[p] == t[p - 1] && s[q] == t[q - 1];
        } else if q > 1 {
          assert InOrder(s[0], s[1], desc);
          assert s[1] == t[0] && s[q] == t[q - 1];
        }
      }
    }
  }

  lemma SortedTail(a: seq<int>, desc: bool)
    requires a != [] && Sorted(a, desc)
    ensures Sorted(a[1..], desc)
  {
  }

  lemma SameTail(a: seq<int>, b: seq<int>)
    requires a != [] && b != [] && a[0] == b[0] && multiset(a) == multiset(b)
    ensures multiset(a[1..]) == multiset(b[1..])
  {
    assert a == [a[0]] + a[1..] && b == [b[0]] + b[1..];
    assert multiset(a) == multiset([a[0]]) + multiset(a[1..]);
    assert multiset(b) == multiset([b[0]]) + multiset(b[1..]);
    forall x ensures multiset(a[1..])[x] == multiset(b[1..])[x] {
      assert multiset(a)[x] == multiset([a[0]])[x] + multiset(a[1..])[x];
      assert multiset(b)[x] == multiset([b[0]])[x] + multiset(b[1..])[x];
    }
  }

  /** Sorting determines its result: two sorted orderings of the same numbers are the same sequence. */
  lemma {:induction false} SortedUnique(a: seq<int>, b: seq<int>, desc: bool)
    requires Sorted(a, desc) && Sorted(b, desc) && multiset(a) == multiset(b)
    ensures a == b
  {
    if a == [] {
      assert |b| == |multiset(b)| == 0;
    } else {
      assert a[0] in multiset(a);
      SortedHead(b, desc, a[0]);
      assert b[0] in multiset(b);
      SortedHead(a, desc, b[0]);
      assert a[0] == b[0];
      SameTail(a, b);
      SortedTail(a, desc);
      SortedTail(b, desc);
      SortedUnique(a[1..], b[1..], desc);
    }
  }

  /**
   * `arr.numberSort(descOrder)`: sorts the receiver in place, ascending, or
   * descending when `descOrder` is truthy, and returns the receiver. The
   * sorting itself is the engine's `Array.prototype.sort`; an insertion sort
   * stands for it here.
   */
  method NumberSort(a: array<int>, descOrder: bool) returns (r: array<int>)
    modifies a
    ensures r == a
    ensures Sorted(a[..], descOrder)
    ensures multiset(a[..]) == multiset(old(a[..]))
  {
    if a.Length > 0 {
      var i := 1;
      while i < a.Length
        invariant 1 <= i <= a.Length
        invariant Sorted(a[..i], descOrder)
        invariant multiset(a[..]) == multiset(old(a[..]))
      {
        InsertLast(a, i, descOrder);
        i := i + 1;
      }
      assert a[..i] == a[..];
    }
    r := a;
  }

  /** Moves `a[i]` down into the sorted prefix `a[..i]`, comparing with the comparator. */
  method InsertLast(a: array<int>, i: nat, desc: bool)
    requires i < a.Length && Sorted(a[..i], desc)
    modifies a
    ensures Sorted(a[..i + 1], desc)
    ensures multiset(a[..]) == multiset(old(a[..]))
  {
    var j := i;
    while j > 0 && !InOrder(a[j - 1], a[j], desc)
      invariant 0 <= j <= i
      invariant forall p, q :: 0 <= p < q <= i && p != j && q != j ==> InOrder(a[p], a[q], desc)
      invariant forall q :: j < q <= i ==> InOrder(a[j], a[q], desc)
      invariant multiset(a[..]) == multiset(old(a[..]))
    {
      Swap(a, j - 1, j);
      j := j - 1;
    }
  }

  /** Exchanges two elements of the array. */
  method Swap(a: array<int>, i: nat, j: nat)
    requires i < a.Length && j < a.Length
    modifies a
    ensures a[..] == old(a[..])[i := old(a[j])][j := old(a[i])]
    ensures multiset(a[..]) == multiset(old(a[..]))
  {
    a[i], a[j] := a[j], a[i];
  }

  /** The two orderings of the example below are sorted and are permutations of its input. */
  lemma ExampleOrders(up: seq<int>, down: seq<int>)
    requires up == [1, 2, 10, 21] && down == [21, 10, 2, 1]
    ensures Sorted(up, false) && Sorted(down, true)
    ensures multiset(up) == multiset(down) == multiset([1, 10, 21, 2])
  {
    assert multiset(up) == multiset{1, 2, 10, 21} == multiset([1, 10, 21, 2]);
    assert multiset(down) == multiset{1, 2, 10, 21};
    SortedFromAdjacent(up, false);
    SortedFromAdjacent(down, true);
  }

  /** `[1, 10, 21, 2].numberSort()` is `[1, 2, 10, 21]`, and `numberSort(true)` gives `[21, 10, 2, 1]`. */
  lemma NumberSortExample(s: seq<int>, up: seq<int>, down: seq<int>)
    requires multiset(s) == multiset([1, 10, 21, 2])
    requires up == [1, 2, 10, 21] && down == [21, 10, 2, 1]
    ensures Sorted(s, false) ==> s == up
    ensures Sorted(s, true) ==> s == down
  {
    ExampleOrders(up, down);
    if Sorted(s, false) {
      SortedUnique(s, up, false);
    }
    if Sorted(s, true) {
      SortedUnique(s, down, true);
    }
  }
}
