/**
 * The query-string parser `h.url` of src/jquery.extend.js.
 *
 * `decodeURI` is not modelled: it is a parameter that returns `None` where
 * it would throw a URIError. `location.search` is a parameter as well.
 */
module QueryString {
  import opened Wrappers
  import opened JsCore

  datatype UriError = URIError

  /** The query text: after the first `?` of `url`, or `search` without its first character when `url` is empty. */
  function Query(url: string, search: string): string {
    if url == [] then (if search == [] then [] else search[1..])
    else url[IndexOf(url, "?") + 1..]
  }

  /** The name of a segment holding `=`: the text before its first `=`. */
  function NameOf(p: string): string
    requires '=' in p
  {
    IndexOfChar(p, '=');
    p[..IndexOf(p, "=")]
  }

  /** The value of a segment holding `=`: the text after its first `=`, which may hold more `=`. */
  function ValueOf(p: string): string
    requires '=' in p
  {
    IndexOfChar(p, '=');
    p[IndexOf(p, "=") + 1..]
  }

  /** A segment is its name, the first `=`, and its value. */
  lemma SegmentParts(p: string)
    requires '=' in p
    ensures p == NameOf(p) + "=" + ValueOf(p)
    ensures '=' !in NameOf(p)
  {
    IndexOfChar(p, '=');
  }

  /**
   * The one name an assignment to a fresh `new Object()` does not record:
   * `args['__proto__'] = value` with a string value leaves the object as it was.
   */
  const ProtoName: string := "__proto__"

  /**
   * What the loop over `pairs` leaves in `args`: `Failure` where a value's
   * `decodeURI` throws; a segment named `__proto__` is decoded but not recorded.
   */
  function Collect(args: map<string, string>, pairs: seq<string>, decode: string -> Option<string>)
    : Result<map<string, string>, UriError>
    decreases |pairs|
  {
    if pairs == [] then Success(args)
    else if '=' !in pairs[0] then Collect(args, pairs[1..], decode)
    else
      match decode(ValueOf(pairs[0]))
      case None => Failure(URIError)
      case Some(v) =>
        var next := if NameOf(pairs[0]) == ProtoName then args else args[NameOf(pairs[0]) := v];
        Collect(next, pairs[1..], decode)
  }

  /** What `h.url(url)` returns: the query decoded once, split on `&`, each value decoded again. */
  function UrlSpec(url: string, search: string, decode: string -> Option<string>): Result<map<string, string>, UriError> {
    match decode(Query(url, search))
    case None => Failure(URIError)
    case Some(query) => Collect(map[], Split(query, '&'), decode)
  }

  /** `h.url(url)` */
  method Url(url: string, search: string, decode: string -> Option<string>) returns (r: Result<map<string, string>, UriError>)
    ensures r == UrlSpec(url, search, decode)
  {
    var u: string;
    if url == [] {
      u := if search == [] then [] else search[1..];
    } else {
      u := url[IndexOf(url, "?") + 1..];
    }
    var query := decode(u);
    if query.None? {
      return Failure(URIError);
    }
    var pairs := Split(query.value, '&');
    var args: map<string, string> := map[];
    for i := 0 to |pairs|
      invariant Collect(args, pairs[i..], decode) == UrlSpec(url, search, decode)
    {
      CollectStep(args, pairs, i, decode);
      var pos := IndexOf(pairs[i], "=");
      IndexOfChar(pairs[i], '=');
      if pos == -1 {
        continue;
      }
      var argname := pairs[i][..pos];
      var value := decode(pairs[i][pos + 1..]);
      assert argname == NameOf(pairs[i]) && value == decode(ValueOf(pairs[i]));
      if value.None? {
        return Failure(URIError);
      }
      if argname != ProtoName {
        args := args[argname := value.value];
      }
    }
    return Success(args);
  }

  /** One turn of `h.url`'s loop over `pairs`, in terms of `Collect`. */
  lemma CollectStep(args: map<string, string>, pairs: seq<string>, i: nat, decode: string -> Option<string>)
    requires i < |pairs|
    ensures '=' !in pairs[i] ==> Collect(args, pairs[i..], decode) == Collect(args, pairs[i + 1..], decode)
    ensures '=' in pairs[i] && decode(ValueOf(pairs[i])).None? ==> Collect(args, pairs[i..], decode) == Failure(URIError)
    ensures '=' in pairs[i] && decode(ValueOf(pairs[i])).Some? ==>
      Collect(args, pairs[i..], decode) ==
      Collect(if NameOf(pairs[i]) == ProtoName then args else args[NameOf(pairs[i]) := decode(ValueOf(pairs[i])).value],
              pairs[i + 1..], decode)
  {
    assert pairs[i..][0] == pairs[i] && pairs[i..][1..] == pairs[i + 1..];
  }

  /** Without `?` the whole url is the query; otherwise the query starts after the first `?`. */
  lemma QueryAfterMark(url: string, search: string)
    requires url != []
    ensures '?' !in url ==> Query(url, search) == url
    ensures '?' in url ==> exists k :: 0 <= k < |url| && url[k] == '?' && '?' !in url[..k] && Query(url, search) == url[k + 1..]
  {
    IndexOfChar(url, '?');
  }

  /** The names of the segments that hold `=`. */
  function Names(pairs: seq<string>): set<string> {
    set j | 0 <= j < |pairs| && '=' in pairs[j] :: NameOf(pairs[j])
  }

  lemma NamesCons(pairs: seq<string>)
    requires pairs != []
    ensures Names(pairs) == (if '=' in pairs[0] then {NameOf(pairs[0])} else {}) + Names(pairs[1..])
  {
    var rest := pairs[1..];
    forall x | x in Names(pairs)
      ensures x in (if '=' in pairs[0] then {NameOf(pairs[0])} else {}) + Names(rest)
    {
      var j :| 0 <= j < |pairs| && '=' in pairs[j] && NameOf(pairs[j]) == x;
      if j > 0 {
        assert rest[j - 1] == pairs[j];
      }
    }
    forall x | x in Names(rest) ensures x in Names(pairs) {
      var j :| 0 <= j < |rest| && '=' in rest[j] && NameOf(rest[j]) == x;
      assert pairs[j + 1] == rest[j];
    }
    if '=' in pairs[0] {
      assert NameOf(pairs[0]) in Names(pairs);
    }
  }

  /** The loop fails exactly when some segment holding `=` has a value `decodeURI` rejects. */
  lemma {:induction false} CollectFails(args: map<string, string>, pairs: seq<string>, decode: string -> Option<string>)
    ensures Collect(args, pairs, decode).Failure? <==>
      exists j :: 0 <= j < |pairs| && '=' in pairs[j] && decode(ValueOf(pairs[j])).None?
    decreases |pairs|
  {
    if pairs != [] {
      var rest := pairs[1..];
      var next := if '=' !in pairs[0] || decode(ValueOf(pairs[0])).None? || NameOf(pairs[0]) == ProtoName then args
        else args[NameOf(pairs[0]) := decode(ValueOf(pairs[0])).value];
      CollectFails(next, rest, decode);
      if exists j :: 0 <= j < |rest| && '=' in rest[j] && decode(ValueOf(rest[j])).None? {
        var j :| 0 <= j < |rest| && '=' in rest[j] && decode(ValueOf(rest[j])).None?;
        assert pairs[j + 1] == rest[j];
      }
      if exists j :: 0 <= j < |pairs| && '=' in pairs[j] && decode(ValueOf(pairs[j])).None? {
        var j :| 0 <= j < |pairs| && '=' in pairs[j] && decode(ValueOf(pairs[j])).None?;
        if j > 0 {
          assert rest[j - 1] == pairs[j];
        }
      }
    }
  }

  /**
   * The result holds the keys it started with and exactly the names of the
   * segments holding `=`, except `__proto__`.
   */
  lemma {:induction false} CollectKeys(args: map<string, string>, pairs: seq<string>, decode: string -> Option<string>)
    requires Collect(args, pairs, decode).Success?
    ensures Collect(args, pairs, decode).value.Keys == args.Keys + (Names(pairs) - {ProtoName})
    decreases |pairs|
  {
    if pairs != [] {
      NamesCons(pairs);
      if '=' !in pairs[0] {
        CollectKeys(args, pairs[1..], decode);
      } else if NameOf(pairs[0]) == ProtoName {
        CollectKeys(args, pairs[1..], decode);
      } else {
        var v := decode(ValueOf(pairs[0])).value;
        CollectKeys(args[NameOf(pairs[0]) := v], pairs[1..], decode);
      }
    }
  }

  /** A key that no segment names keeps the value it started with. */
  lemma {:induction false} CollectUntouched(args: map<string, string>, pairs: seq<string>, decode: string -> Option<string>, k: string)
    requires Collect(args, pairs, decode).Success?
    requires k in args
    requires forall j :: 0 <= j < |pairs| && '=' in pairs[j] ==> NameOf(pairs[j]) != k
    ensures k in Collect(args, pairs, decode).value && Collect(args, pairs, decode).value[k] == args[k]
    decreases |pairs|
  {
    if pairs != [] {
      assert forall j :: 0 <= j < |pairs| - 1 ==> pairs[1..][j] == pairs[j + 1];
      if '=' !in pairs[0] || NameOf(pairs[0]) == ProtoName {
        CollectUntouched(args, pairs[1..], decode, k);
      } else {
        var v := decode(ValueOf(pairs[0])).value;
        CollectUntouched(args[NameOf(pairs[0]) := v], pairs[1..], decode, k);
      }
    }
  }

  /** The last segment with a given name other than `__proto__` wins: its decoded value is the one kept. */
  lemma {:induction false} CollectLastWins(args: map<string, string>, pairs: seq<string>, decode: string -> Option<string>, j: nat)
    requires Collect(args, pairs, decode).Success?
    requires j < |pairs| && '=' in pairs[j] && NameOf(pairs[j]) != ProtoName
    requires forall l :: j < l < |pairs| && '=' in pairs[l] ==> NameOf(pairs[l]) != NameOf(pairs[j])
    ensures NameOf(pairs[j]) in Collect(args, pairs, decode).value
    ensures decode(ValueOf(pairs[j])) == Some(Collect(args, pairs, decode).value[NameOf(pairs[j])])
    decreases |pairs|
  {
    var rest := pairs[1..];
    assert forall l :: 0 <= l < |rest| ==> rest[l] == pairs[l + 1];
    if j == 0 {
      var v := decode(ValueOf(pairs[0])).value;
      CollectUntouched(args[NameOf(pairs[0]) := v], rest, decode, NameOf(pairs[0]));
    } else if '=' !in pairs[0] || NameOf(pairs[0]) == ProtoName {
      CollectLastWins(args, rest, decode, j - 1);
    } else {
      var v := decode(ValueOf(pairs[0])).value;
      CollectLastWins(args[NameOf(pairs[0]) := v], rest, decode, j - 1);
    }
  }

  /**
   * `h.url` fails exactly when decoding the query or one of its values fails;
   * otherwise its keys are the names of the segments, except `__proto__`.
   */
  lemma UrlResult(url: string, search: string, decode: string -> Option<string>)
    ensures UrlSpec(url, search, decode).Failure? <==>
      decode(Query(url, search)).None? ||
      exists j :: 0 <= j < |Split(decode(Query(url, search)).value, '&')| &&
        '=' in Split(decode(Query(url, search)).value, '&')[j] &&
        decode(ValueOf(Split(decode(Query(url, search)).value, '&')[j])).None?
    ensures UrlSpec(url, search, decode).Success? ==>
      UrlSpec(url, search, decode).value.Keys == Names(Split(decode(Query(url, search)).value, '&')) - {ProtoName}
  {
    if decode(Query(url, search)).Some? {
      var pairs := Split(decode(Query(url, search)).value, '&');
      CollectFails(map[], pairs, decode);
      if Collect(map[], pairs, decode).Success? {
        CollectKeys(map[], pairs, decode);
      }
    }
  }

  /** A segment built from a name without `=`, an `=` and a value splits back into them. */
  lemma NameValue(p: string, name: string, value: string)
    requires p == name + "=" + value && '=' !in name
    ensures '=' in p && NameOf(p) == name && ValueOf(p) == value
  {
    assert p[|name|] == '=';
    IndexOfChar(p, '=');
    assert p[..|name|] == name;
    assert forall i :: 0 <= i < |name| ==> p[i] == name[i];
  }

  /** With a decoder that changes nothing, `a=1&c&a=2=3` gives `{a: '2=3'}`. */
  lemma CollectExample(pairs: seq<string>, decode: string -> Option<string>, a: string, c: string)
    requires pairs == [a + "=" + "1", c, a + "=" + "2=3"] && a == "a" && c == "c"
    requires forall s :: decode(s) == Some(s)
    ensures Collect(map[], pairs, decode) == Success(map[a := "2=3"])
  {
    NameValue(pairs[0], a, "1");
    NameValue(pairs[2], a, "2=3");
    assert '=' !in pairs[1];
    CollectFails(map[], pairs, decode);
    CollectKeys(map[], pairs, decode);
    assert Names(pairs) == {a} by { NamesCons(pairs); NamesCons(pairs[1..]); NamesCons(pairs[2..]); }
    CollectLastWins(map[], pairs, decode, 2);
    var m := Collect(map[], pairs, decode).value;
    assert m.Keys == {a};
    assert m[a] == "2=3";
    assert m == map[a := "2=3"];
  }

  /** With a decoder that changes nothing, `__proto__=x&b=1` gives `{b: '1'}`: the `__proto__` segment adds nothing. */
  lemma CollectProtoExample(pairs: seq<string>, decode: string -> Option<string>, b: string)
    requires pairs == [ProtoName + "=" + "x", b + "=" + "1"] && b == "b"
    requires forall s :: decode(s) == Some(s)
    ensures Collect(map[], pairs, decode) == Success(map[b := "1"])
  {
    NameValue(pairs[0], ProtoName, "x");
    NameValue(pairs[1], b, "1");
    assert pairs[1..] == [pairs[1]] && pairs[1..][1..] == [];
    assert Collect(map[], pairs, decode) == Collect(map[], pairs[1..], decode);
  }
}
