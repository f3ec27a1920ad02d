/**
 * The environment-string matchers of src/polyfill/Browser.js: `isPC`,
 * `getUrlParam` and `getCookie`.
 *
 * `navigator.userAgent`, `window.location.search` and `document.cookie`
 * are parameters; `decodeURIComponent` and `unescape` are parameters as
 * well, the first returning `None` where it would throw a URIError.
 */
module Browser {
  import opened Wrappers
  import opened JsCore

  datatype UriError = URIError

  // ---------------------------------------------------------------------
  // isPC
  // ---------------------------------------------------------------------

  /** The user-agent tokens that mark a mobile device. */
  const Agents: seq<string> := ["Android", "iPhone", "SymbianOS", "Windows Phone", "iPad", "iPod"]

  /** No token's first occurrence lies after the start of the user agent. */
  predicate IsPCSpec(ua: string) {
    forall v :: 0 <= v < |Agents| ==> IndexOf(ua, Agents[v]) <= 0
  }

  /** `Browser.isPC()` for the user agent `ua`. */
  method IsPC(ua: string) returns (flag: bool)
    ensures flag == IsPCSpec(ua)
  {
    var agents := Agents;
    flag := true;
    for v := 0 to |agents|
      invariant flag
      invariant forall w :: 0 <= w < v ==> IndexOf(ua, agents[w]) <= 0
    {
      if IndexOf(ua, agents[v]) > 0 {
        flag := false;
        break;
      }
    }
  }

  /**
   * A user agent is not a PC exactly when some token occurs after its
   * start and does not also occur at index 0: a token at index 0 hides
   * every later occurrence of it, because the condition is `indexOf(...) > 0`.
   */
  lemma IsPCIff(ua: string)
    ensures !IsPCSpec(ua) <==>
      exists v, k :: 0 <= v < |Agents| && 0 < k && OccursAt(ua, Agents[v], k) && !OccursAt(ua, Agents[v], 0)
  {
    if !IsPCSpec(ua) {
      var v :| 0 <= v < |Agents| && IndexOf(ua, Agents[v]) > 0;
      assert OccursAt(ua, Agents[v], IndexOf(ua, Agents[v]));
    }
  }

  lemma AgentsNonEmpty()
    ensures forall v :: 0 <= v < |Agents| ==> |Agents[v]| >= 4
  {
  }

  /** The empty user agent is a PC. */
  lemma IsPCEmpty()
    ensures IsPCSpec([])
  {
    AgentsNonEmpty();
    forall v | 0 <= v < |Agents| ensures IndexOf([], Agents[v]) <= 0 {
      assert !OccursAt([], Agents[v], 0);
    }
  }

  /** A needle whose first character does not occur from `from` on occurs nowhere from there. */
  lemma FirstCharAbsent(s: string, t: string, from: nat)
    requires t != [] && forall k :: from <= k < |s| ==> s[k] != t[0]
    ensures forall k :: from <= k ==> !OccursAt(s, t, k)
  {
    forall k | from <= k ensures !OccursAt(s, t, k) {
      if k + |t| <= |s| {
        assert s[k..k + |t|][0] == s[k];
      }
    }
  }

  /** A user agent that is `iPhone` and nothing else is taken for a PC. */
  lemma IsPCTokenAtStart(ua: string)
    requires ua == Agents[1]
    ensures IsPCSpec(ua)
  {
    forall v | 0 <= v < |Agents| ensures IndexOf(ua, Agents[v]) <= 0 {
      FirstCharAbsent(ua, Agents[v], 1);
    }
  }

  /** `... (iPhone; ...)`: a token after the start of the user agent marks a mobile device. */
  lemma IsPCMobileExample(ua: string, prefix: string)
    requires prefix == "Mozilla/5.0 (" && ua == prefix + Agents[1]
    ensures !IsPCSpec(ua)
  {
    assert OccursAt(ua, Agents[1], |prefix|) by {
      assert ua[|prefix|..|prefix| + |Agents[1]|] == Agents[1];
    }
    assert !OccursAt(ua, Agents[1], 0) by {
      assert ua[0] == 'M';
    }
    IsPCIff(ua);
  }

  // ---------------------------------------------------------------------
  // Runs up to a stop character
  // ---------------------------------------------------------------------

  /** The number of characters from `i` on before the next `stop` (or the end). */
  function RunUntil(s: string, i: nat, stop: char): (n: nat)
    requires i <= |s|
    ensures i + n <= |s|
    ensures stop !in s[i..i + n]
    ensures i + n == |s| || s[i + n] == stop
    decreases |s| - i
  {
    if i == |s| || s[i] == stop then 0 else 1 + RunUntil(s, i + 1, stop)
  }

  /** The run is determined by the non-stop characters it covers and what stops it. */
  lemma {:induction false} RunUntilIs(s: string, i: nat, stop: char, n: nat)
    requires i + n <= |s|
    requires forall k :: i <= k < i + n ==> s[k] != stop
    requires i + n == |s| || s[i + n] == stop
    ensures RunUntil(s, i, stop) == n
    decreases n
  {
    if n > 0 {
      RunUntilIs(s, i + 1, stop, n - 1);
    }
  }

  /** A value without `stop`, followed by `stop` or the end, is exactly the run. */
  lemma RunUntilValue(s: string, i: nat, stop: char, value: string, rest: string)
    requires i <= |s| && s[i..] == value + rest
    requires stop !in value && (rest == [] || rest[0] == stop)
    ensures i + |value| <= |s| && RunUntil(s, i, stop) == |value| && s[i..i + |value|] == value
  {
    assert forall k :: 0 <= k < |value| ==> s[i + k] == s[i..][k] == value[k];
    assert i + |value| < |s| ==> s[i + |value|] == s[i..][|value|] == rest[0];
    RunUntilIs(s, i, stop, |value|);
    assert s[i..i + |value|] == s[i..][..|value|];
  }

  /** The text from `i` up to the next `stop` or the end. */
  function TextUntil(s: string, i: nat, stop: char): (t: string)
    requires i <= |s|
    ensures stop !in t
  {
    s[i..i + RunUntil(s, i, stop)]
  }

  lemma TextUntilIs(s: string, i: nat, stop: char, value: string, rest: string)
    requires i <= |s| && s[i..] == value + rest
    requires stop !in value && (rest == [] || rest[0] == stop)
    ensures TextUntil(s, i, stop) == value
  {
    RunUntilValue(s, i, stop, value, rest);
  }

  // ---------------------------------------------------------------------
  // getUrlParam
  // ---------------------------------------------------------------------

  /** `[?&]name=` matches at `k`. */
  predicate ParamAt(search: string, name: string, k: nat) {
    k < |search| && (search[k] == '?' || search[k] == '&') && OccursAt(search, name + "=", k + 1)
  }

  /** The leftmost match at or after `k`. */
  function FirstParam(search: string, name: string, k: nat): (r: Option<nat>)
    ensures r.None? ==> forall j :: k <= j ==> !ParamAt(search, name, j)
    ensures r.Some? ==> (k <= r.value && ParamAt(search, name, r.value)
      && forall j :: k <= j < r.value ==> !ParamAt(search, name, j))
    decreases |search| - k
  {
    if k >= |search| then None
    else if ParamAt(search, name, k) then Some(k)
    else FirstParam(search, name, k + 1)
  }

  lemma {:induction false} FirstParamIs(search: string, name: string, k: nat, m: nat)
    requires k <= m && ParamAt(search, name, m)
    requires forall j :: k <= j < m ==> !ParamAt(search, name, j)
    ensures FirstParam(search, name, k) == Some(m)
    decreases m - k
  {
    if k < m {
      FirstParamIs(search, name, k + 1, m);
    }
  }

  /** `.replace(/\+/g, ' ')` */
  function PlusToSpace(s: string): (r: string)
    ensures |r| == |s| && '+' !in r
    ensures forall i :: 0 <= i < |s| ==> r[i] == if s[i] == '+' then ' ' else s[i]
  {
    seq(|s|, i requires 0 <= i < |s| => if s[i] == '+' then ' ' else s[i])
  }

  /**
   * `Browser.getUrlParam(name)`: `None` is `null`; otherwise the text
   * after the leftmost `?name=` or `&name=` up to the next `&`, with every
   * `+` turned into a space, then decoded.
   */
  function GetUrlParam(name: string, search: string, decode: string -> Option<string>)
    : Result<Option<string>, UriError>
  {
    match ParamText(name, search)
    case None => Success(None)
    case Some(raw) =>
      match decode(PlusToSpace(raw))
      case None => Failure(URIError)
      case Some(v) => Success(Some(v))
  }

  /** The group `([^&]*)` of the leftmost match: the text after `name=` up to the next `&`. */
  function ParamText(name: string, search: string): Option<string> {
    match FirstParam(search, name, 0)
    case None => None
    case Some(k) => Some(TextUntil(search, k + 1 + |name| + 1, '&'))
  }

  /** `null` exactly when no `?name=` or `&name=` occurs. */
  lemma GetUrlParamNull(name: string, search: string, decode: string -> Option<string>)
    ensures GetUrlParam(name, search, decode) == Success(None) <==> forall k :: !ParamAt(search, name, k)
  {
  }

  /**
   * A search string `prefix + mark + name + '=' + value + rest`, with the
   * mark `?` or `&`, no `&` in `value`, `rest` empty or starting with `&`,
   * and no earlier match, gives `value` with its `+` as spaces, decoded.
   */
  lemma GetUrlParamValue(name: string, search: string, decode: string -> Option<string>,
                         prefix: string, mark: char, value: string, rest: string)
    requires mark == '?' || mark == '&'
    requires search == prefix + [mark] + name + "=" + value + rest
    requires '&' !in value && (rest == [] || rest[0] == '&')
    requires forall k :: 0 <= k < |prefix| ==> !ParamAt(search, name, k)
    ensures GetUrlParam(name, search, decode) ==
      match decode(PlusToSpace(value))
      case None => Failure(URIError)
      case Some(v) => Success(Some(v))
  {
    ParamFound(name, search, prefix, mark, value + rest);
    ParamTextIs(name, search, |prefix|, value, rest);
  }

  /** With the leftmost match at `k` and `value` then `rest` after its `=`, the text is `value`. */
  lemma ParamTextIs(name: string, search: string, k: nat, value: string, rest: string)
    requires FirstParam(search, name, 0) == Some(k)
    requires k + 1 + |name| + 1 <= |search| && search[k + 1 + |name| + 1..] == value + rest
    requires '&' !in value && (rest == [] || rest[0] == '&')
    ensures ParamText(name, search) == Some(value)
  {
    var i := k + 1 + |name| + 1;
    ParamTextAt(name, search, k);
    TextUntilIs(search, i, '&', value, rest);
  }

  /** Where `prefix` has no match, `mark + name + '='` right after it is the leftmost match. */
  lemma ParamFound(name: string, search: string, prefix: string, mark: char, after: string)
    requires mark == '?' || mark == '&'
    requires search == prefix + [mark] + name + "=" + after
    requires forall k :: 0 <= k < |prefix| ==> !ParamAt(search, name, k)
    ensures FirstParam(search, name, 0) == Some(|prefix|)
    ensures search[|prefix| + 1 + |name| + 1..] == after
  {
    var k := |prefix|;
    assert search[k + 1..] == (name + "=") + after;
    NeedleAt(search, k + 1, name + "=", after);
    assert ParamAt(search, name, k);
    FirstParamIs(search, name, 0, k);
  }

  /** Once the leftmost match is at `k`, the text is what follows `name=` up to `&` or the end. */
  lemma ParamTextAt(name: string, search: string, k: nat)
    requires FirstParam(search, name, 0) == Some(k)
    ensures k + 1 + |name| + 1 <= |search|
    ensures ParamText(name, search) == Some(TextUntil(search, k + 1 + |name| + 1, '&'))
  {
  }

  /** A needle at the head of a suffix occurs there, and what follows it is the rest. */
  lemma NeedleAt(s: string, i: nat, needle: string, after: string)
    requires i <= |s| && s[i..] == needle + after
    ensures OccursAt(s, needle, i) && s[i + |needle|..] == after
  {
    assert s[i..i + |needle|] == s[i..][..|needle|];
    assert s[i + |needle|..] == s[i..][|needle|..];
  }

  /** `?id=1&name=a+b` read for `name` with a decoder that changes nothing gives `a b`. */
  lemma GetUrlParamExample(search: string, decode: string -> Option<string>, name: string)
    requires name == "name" && search == "?id=1" + ['&'] + name + "=" + "a+b"
    requires forall s :: decode(s) == Some(s)
    ensures GetUrlParam(name, search, decode) == Success(Some("a b"))
  {
    var prefix := "?id=1";
    forall k | 0 <= k < |prefix| ensures !ParamAt(search, name, k) {
      if k == 0 {
        assert search[1] != (name + "=")[0];
        FirstCharAbsent(search[..2], name + "=", 1);
        assert search[1..1 + |name + "="|][0] == search[1];
      } else {
        assert search[k] != '?' && search[k] != '&';
      }
    }
    assert search == prefix + ['&'] + name + "=" + "a+b" + [];
    GetUrlParamValue(name, search, decode, prefix, '&', "a+b", []);
    assert PlusToSpace("a+b") == "a b";
  }

  // ---------------------------------------------------------------------
  // getCookie
  // ---------------------------------------------------------------------

  /** `name=` stands at `p`, at the start of the cookie string or after a space. */
  predicate CookieAt(cookie: string, name: string, p: nat) {
    (p == 0 || (0 < p <= |cookie| && cookie[p - 1] == ' ')) && OccursAt(cookie, name + "=", p)
  }

  /** The leftmost such place at or after `p`: where `(^| )name=` first matches. */
  function FirstCookie(cookie: string, name: string, p: nat): (r: Option<nat>)
    ensures r.None? ==> forall j :: p <= j ==> !CookieAt(cookie, name, j)
    ensures r.Some? ==> (p <= r.value && CookieAt(cookie, name, r.value)
      && forall j :: p <= j < r.value ==> !CookieAt(cookie, name, j))
    decreases |cookie| + 1 - p
  {
    if p > |cookie| then None
    else if CookieAt(cookie, name, p) then Some(p)
    else FirstCookie(cookie, name, p + 1)
  }

  lemma {:induction false} FirstCookieIs(cookie: string, name: string, p: nat, m: nat)
    requires p <= m && CookieAt(cookie, name, m)
    requires forall j :: p <= j < m ==> !CookieAt(cookie, name, j)
    ensures FirstCookie(cookie, name, p) == Some(m)
    decreases m - p
  {
    if p < m {
      FirstCookieIs(cookie, name, p + 1, m);
    }
  }

  /**
   * `Browser.getCookie(name)`: `None` is `null`; otherwise the text after
   * the first `name=` at the start or after a space, up to the next `;`,
   * unescaped.
   */
  function GetCookie(name: string, cookie: string, unescape: string -> string): Option<string> {
    match CookieText(name, cookie)
    case None => None
    case Some(raw) => Some(unescape(raw))
  }

  /** The group `([^;]*)` of the leftmost match: the text after `name=` up to the next `;`. */
  function CookieText(name: string, cookie: string): Option<string> {
    match FirstCookie(cookie, name, 0)
    case None => None
    case Some(p) => Some(TextUntil(cookie, p + |name| + 1, ';'))
  }

  /** `null` exactly when `name=` stands neither at the start nor after a space. */
  lemma GetCookieNull(name: string, cookie: string, unescape: string -> string)
    ensures GetCookie(name, cookie, unescape).None? <==> forall p :: !CookieAt(cookie, name, p)
  {
  }

  /**
   * A cookie string `prefix + name + '=' + value + rest`, with `prefix`
   * empty or ending in a space, no `;` in `value`, `rest` empty or starting
   * with `;`, and no earlier match, gives `value` unescaped.
   */
  lemma GetCookieValue(name: string, cookie: string, unescape: string -> string,
                       prefix: string, value: string, rest: string)
    requires cookie == prefix + name + "=" + value + rest
    requires prefix == [] || prefix[|prefix| - 1] == ' '
    requires ';' !in value && (rest == [] || rest[0] == ';')
    requires forall p :: 0 <= p < |prefix| ==> !CookieAt(cookie, name, p)
    ensures GetCookie(name, cookie, unescape) == Some(unescape(value))
  {
    CookieFound(name, cookie, prefix, value + rest);
    CookieTextAt(name, cookie, |prefix|);
    TextUntilIs(cookie, |prefix| + |name| + 1, ';', value, rest);
  }

  /** Once `name=` is found at `p`, the text is what follows it up to `;` or the end. */
  lemma CookieTextAt(name: string, cookie: string, p: nat)
    requires FirstCookie(cookie, name, 0) == Some(p)
    ensures p + |name| + 1 <= |cookie|
    ensures CookieText(name, cookie) == Some(TextUntil(cookie, p + |name| + 1, ';'))
  {
  }

  /** Where `prefix` has no match and ends the way `(^| )` needs, `name=` is found right after it. */
  lemma CookieFound(name: string, cookie: string, prefix: string, after: string)
    requires cookie == prefix + name + "=" + after
    requires prefix == [] || prefix[|prefix| - 1] == ' '
    requires forall p :: 0 <= p < |prefix| ==> !CookieAt(cookie, name, p)
    ensures FirstCookie(cookie, name, 0) == Some(|prefix|)
    ensures cookie[|prefix| + |name| + 1..] == after
  {
    var p := |prefix|;
    assert cookie[p..] == (name + "=") + after;
    NeedleAt(cookie, p, name + "=", after);
    assert cookie[..p] == prefix;
    assert p == 0 || cookie[p - 1] == cookie[..p][p - 1];
    assert CookieAt(cookie, name, p);
    FirstCookieIs(cookie, name, 0, p);
  }

  /** A name that only occurs inside another cookie's name is not found: `xid=1` has no cookie `id`. */
  lemma GetCookieInsideName(name: string, cookie: string, unescape: string -> string)
    requires name == "id" && cookie == ['x'] + name + "=" + "1"
    ensures GetCookie(name, cookie, unescape).None?
  {
    forall p | 0 <= p ensures !CookieAt(cookie, name, p) {
      if p == 0 {
        assert cookie[0] != (name + "=")[0];
        assert |cookie| >= |name + "="| ==> cookie[..|name + "="|][0] == cookie[0];
      } else if p <= |cookie| {
        assert cookie[p - 1] != ' ';
      }
    }
  }
}
