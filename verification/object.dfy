/**
 * The Object helpers of src/polyfill/Object.js: `Object.clone`,
 * `Object.isEmpty`, `Object.isType` and `Object.prototype.remove`.
 *
 * A JavaScript value is a `JsValue`; an object whose properties are
 * changed in place is a `JsObject` holding its own properties as a map.
 * Only own properties are modelled (see the README).
 */
module ObjectExt {
  import opened Wrappers
  import opened JsCore
  import StringExt

  /** The kinds of value `Object.prototype.toString` tells apart here. */
  datatype JsValue =
    | Undefined
    | Null
    | Boolean(b: bool)
    | Str(s: string)
    | Number(n: int)
    | Array(items: seq<JsValue>)
    | Object(properties: map<string, JsValue>)
    | Function
    | Date(time: int)

  datatype Error = TypeError

  /**
   * The `keys` argument of `obj.remove(keys)`: a falsy value, an array of
   * property names, or a truthy value that has no `forEach` method.
   */
  datatype KeysArg = Falsy | KeyList(keys: seq<string>) | NoForEach

  // ---------------------------------------------------------------------
  // Object.isEmpty
  // ---------------------------------------------------------------------

  /** The property names `for (name in v)` visits: indices of strings and arrays, the keys of objects. */
  function EnumerableKeys(v: JsValue): set<string> {
    match v
    case Str(s) => set i | 0 <= i < |s| :: NatToString(i)
    case Array(items) => set i | 0 <= i < |items| :: NatToString(i)
    case Object(properties) => properties.Keys
    case _ => {}
  }

  /**
   * `Object.isEmpty(obj)`: the `for..in` loop returns false at the first
   * name it visits, so the result only depends on whether there is one.
   */
  method IsEmpty(obj: JsValue) returns (r: bool)
    ensures r <==> EnumerableKeys(obj) == {}
  {
    var names := EnumerableKeys(obj);
    if names != {} {
      return false;
    }
    return true;
  }

  /** Exactly the empty string, the empty array, the empty object and the values without properties are empty. */
  lemma EnumerableKeysEmpty(v: JsValue)
    ensures EnumerableKeys(v) == {} <==>
      match v
      case Str(s) => s == []
      case Array(items) => items == []
      case Object(properties) => properties == map[]
      case _ => true
  {
    match v
    case Str(s) =>
      if s != [] { assert NatToString(0) in EnumerableKeys(v); }
    case Array(items) =>
      if items != [] { assert NatToString(0) in EnumerableKeys(v); }
    case Object(properties) =>
      if properties != map[] {
        var k :| k in properties;
        assert k in EnumerableKeys(v);
      }
    case _ =>
  }

  /** `isEmpty()`, `isEmpty({})`, `isEmpty(null)`, `isEmpty(0)` and `isEmpty(1)` are true; `isEmpty({'a': 1})` is false. */
  method IsEmptyExamples(a: string)
    requires a == "a"
  {
    var r := IsEmpty(Undefined);
    assert r;
    r := IsEmpty(Object(map[]));
    assert r;
    r := IsEmpty(Null);
    assert r;
    r := IsEmpty(Number(0));
    assert r;
    r := IsEmpty(Number(1));
    assert r;
    r := IsEmpty(Object(map[a := Number(1)]));
    assert a in EnumerableKeys(Object(map[a := Number(1)]));
    assert !r;
  }

  // ---------------------------------------------------------------------
  // Object.isType
  // ---------------------------------------------------------------------

  /** The name inside `Object.prototype.toString.call(v)`, `[object <name>]`. */
  function Tag(v: JsValue): string {
    match v
    case Undefined => "Undefined"
    case Null => "Null"
    case Boolean(_) => "Boolean"
    case Str(_) => "String"
    case Number(_) => "Number"
    case Array(_) => "Array"
    case Object(_) => "Object"
    case Function => "Function"
    case Date(_) => "Date"
  }

  /** The names `Object.isType` accepts without its `illegal` flag. */
  const Legal: seq<string> :=
    ["Undefined", "Null", "Boolean", "String", "Number", "Array", "Object", "Function", "Date"]

  /** Every value's tag is one of the legal names. */
  lemma TagIsLegal(v: JsValue)
    ensures Tag(v) in Legal
  {
    assert Legal[0] == "Undefined" && Legal[1] == "Null" && Legal[2] == "Boolean";
    assert Legal[3] == "String" && Legal[4] == "Number" && Legal[5] == "Array";
    assert Legal[6] == "Object" && Legal[7] == "Function" && Legal[8] == "Date";
  }

  /** `Object.isType(obj, type, illegal)`, with `type` already converted by `String(type)`. */
  function IsType(obj: JsValue, typeName: string, illegal: bool): (r: Result<bool, Error>)
    ensures r.Failure? <==> !illegal && StringExt.FirstUpperCase(typeName, false) !in Legal
    ensures r.Success? ==> (r.value <==> Tag(obj) == StringExt.FirstUpperCase(typeName, false))
  {
    var t := StringExt.FirstUpperCase(typeName, false);
    if !illegal && t !in Legal then Failure(TypeError)
    else Success(Tag(obj) == t)
  }

  /** The type name is compared without regard to the case of its letters. */
  lemma IsTypeIgnoresCase(obj: JsValue, a: string, b: string, illegal: bool)
    requires LowerString(a) == LowerString(b)
    ensures IsType(obj, a, illegal) == IsType(obj, b, illegal)
  {
    assert StringExt.FirstUpperCase(a, false) == StringExt.FirstUpperCase(b, false);
  }

  /** A name already written with one capital and then small letters is its own normalised form. */
  lemma CapitalisedFixed(t: string)
    requires t != [] && 'A' <= t[0] <= 'Z'
    requires forall k :: 1 <= k < |t| ==> 'a' <= t[k] <= 'z'
    ensures StringExt.FirstUpperCase(t, false) == t
  {
    var l := LowerString(t);
    assert l[1..] == t[1..];
  }

  /** A value is of the type its own tag names, whatever `illegal` says. */
  lemma IsTypeOwnTag(obj: JsValue, illegal: bool)
    ensures IsType(obj, Tag(obj), illegal) == Success(true)
  {
    TagIsLegal(obj);
    CapitalisedFixed(Tag(obj));
  }

  /** With `illegal` set a name outside the table is not an error but never matches. */
  lemma IsTypeIllegalName(obj: JsValue, typeName: string)
    requires StringExt.FirstUpperCase(typeName, false) !in Legal
    ensures IsType(obj, typeName, false) == Failure(TypeError)
    ensures IsType(obj, typeName, true) == Success(false)
  {
    TagIsLegal(obj);
  }

  /** `isType("foobar", 'String')` is true. */
  lemma IsTypeStringExample()
    ensures IsType(Str("foobar"), "String", false) == Success(true)
  {
    IsTypeOwnTag(Str("foobar"), false);
  }

  /** `isType(123, 'number')` is true: the name is normalised to `Number` first. */
  lemma IsTypeNumberExample(number: string)
    requires number == "number"
    ensures IsType(Number(123), number, false) == Success(true)
  {
    IsTypeIgnoresCase(Number(123), number, "Number", false);
    IsTypeOwnTag(Number(123), false);
  }

  /** `isType(1, 'test')` throws a TypeError and `isType(1, 'test', 1)` is false. */
  lemma IsTypeIllegalExample(test: string)
    requires test == "test"
    ensures IsType(Number(1), test, false) == Failure(TypeError)
    ensures IsType(Number(1), test, true) == Success(false)
  {
    IsTypeIgnoresCase(Number(1), test, "Test", false);
    CapitalisedFixed("Test");
    IsTypeIllegalName(Number(1), "Test");
  }

  // ---------------------------------------------------------------------
  // Object.clone and Object.prototype.remove
  // ---------------------------------------------------------------------

  /** An object whose own properties are changed in place. */
  class JsObject {
    var properties: map<string, JsValue>

    constructor(properties: map<string, JsValue>)
      ensures this.properties == properties
    {
      this.properties := properties;
    }

    /** `obj[key] = value` */
    method Set(key: string, value: JsValue)
      modifies this
      ensures properties == old(properties)[key := value]
    {
      properties := properties[key := value];
    }

    /**
     * `obj.remove(keys)`: nothing happens for a falsy `keys`; for an array
     * every key in turn is deleted, present or not; any other value throws a
     * `TypeError` at `keys.forEach` before anything is deleted.
     */
    method Remove(keys: KeysArg) returns (r: Result<(), Error>)
      modifies this
      ensures keys.Falsy? ==> r.Success? && properties == old(properties)
      ensures keys.NoForEach? ==> r == Failure(TypeError) && properties == old(properties)
      ensures keys.KeyList? ==> r.Success? && properties == Removed(old(properties), keys.keys)
    {
      r := Success(());
      if keys.Falsy? {
        return;
      }
      if keys.NoForEach? {
        return Failure(TypeError);
      }
      var ks := keys.keys;
      for i := 0 to |ks|
        invariant properties == Removed(old(properties), ks[..i])
      {
        assert ks[..i + 1] == ks[..i] + [ks[i]];
        RemovedSnoc(old(properties), ks[..i], ks[i]);
        properties := properties - {ks[i]};
      }
      assert ks[..|ks|] == ks;
    }
  }

  /** `Object.clone(obj)`: a new object holding the same own properties. */
  method Clone(obj: JsObject) returns (copy: JsObject)
    ensures fresh(copy)
    ensures copy.properties == obj.properties
  {
    copy := new JsObject(obj.properties);
  }

  /** The properties left after deleting each of `keys` in turn. */
  function Removed(m: map<string, JsValue>, keys: seq<string>): (r: map<string, JsValue>)
    decreases |keys|
  {
    if keys == [] then m else Removed(m - {keys[0]}, keys[1..])
  }

  lemma {:induction false} RemovedSnoc(m: map<string, JsValue>, keys: seq<string>, k: string)
    ensures Removed(m, keys + [k]) == Removed(m, keys) - {k}
    decreases |keys|
  {
    if keys != [] {
      assert (keys + [k])[1..] == keys[1..] + [k];
      RemovedSnoc(m - {keys[0]}, keys[1..], k);
    }
  }

  /** After `remove(keys)` none of the keys is present, and every other property keeps its value. */
  lemma {:induction false} RemovedProperties(m: map<string, JsValue>, keys: seq<string>)
    ensures forall k :: k in keys ==> k !in Removed(m, keys)
    ensures forall k :: k in m && k !in keys ==> k in Removed(m, keys) && Removed(m, keys)[k] == m[k]
    ensures forall k :: k in Removed(m, keys) ==> k in m
    decreases |keys|
  {
    if keys != [] {
      RemovedProperties(m - {keys[0]}, keys[1..]);
      assert forall k :: k in keys ==> k == keys[0] || k in keys[1..];
    }
  }

  /**
   * `obj.remove(['age', 'car'])` on `{name, age, car}` leaves `{name}`, and a
   * clone taken first keeps all three; `obj.remove('name')` then throws and
   * deletes nothing.
   */
  method RemoveExample(name: string, age: string, car: string)
    requires name == "name" && age == "age" && car == "car"
  {
    var obj := new JsObject(map[name := Str("zs"), age := Number(17), car := Str("suzuki")]);
    var copy := Clone(obj);
    var r := obj.Remove(KeyList([age, car]));
    RemovedProperties(map[name := Str("zs"), age := Number(17), car := Str("suzuki")], [age, car]);
    assert obj.properties.Keys == {name};
    assert obj.properties == map[name := Str("zs")];
    assert copy.properties.Keys == {name, age, car};
    var e := obj.Remove(NoForEach);
    assert e == Failure(TypeError) && obj.properties == map[name := Str("zs")];
  }

  /** A clone is not affected by later changes to the original: `obj.a = 2` leaves `copy.a == 1`. */
  method CloneIndependent(a: string)
    requires a == "a"
  {
    var obj := new JsObject(map[a := Number(1)]);
    var copy := Clone(obj);
    obj.Set(a, Number(2));
    assert copy.properties == map[a := Number(1)];
    assert obj.properties == map[a := Number(2)];
  }
}
