# hellojs polyfills in Dafny

This project models the polyfill layer of the hellojs front-end library:

- the `Array` extensions (`contains`, `remove`, `indexOf`, `random`,
  `shuffle`, `empty`, `unique`, `Array.diff`, `Array.same`, `max`, `min`,
  `Array.isEmpty`, `copy`, `numberSort`);
- the `Base64` object (`encode`, `decode` and their UTF-8 helpers);
- the `String`, `RegExp`, `Number`, `Date` and `Object` extensions;
- `Browser.isPC`, `Browser.getUrlParam` and `Browser.getCookie`;
- `Server.uuid`;
- the query-string reader `h.url`.

Each module follows one source file:

| module | file | what it holds |
|---|---|---|
| `Wrappers` | — | `Option` and `Result` |
| `JsCore` | — | the JavaScript built-ins the helpers call: `indexOf`, `split`, `filter`, `trim`, ASCII case mapping, decimal forms |
| `ArrayExt` | `array.dfy` | `src/polyfill/Array.js` |
| `Base64` | `base64.dfy` | the `Base64` object of `dist/polyfill.js` |
| `StringExt` | `string.dfy` | `src/polyfill/String.js` |
| `Validators` | `validators.dfy` | `src/polyfill/RegExp.js` |
| `NumberExt` | `number.dfy` | `src/polyfill/Number.js` |
| `DateExt` | `date.dfy` | `src/polyfill/Date.js` |
| `ObjectExt` | `object.dfy` | `src/polyfill/Object.js` |
| `Browser` | `browser.dfy` | `src/polyfill/Browser.js` |
| `Uuid` | `uuid.dfy` | `src/polyfill/Server.js` |
| `QueryString` | `query_string.dfy` | `h.url` in `src/jquery.extend.js` |

The modelling choices:

- **Strings.** JavaScript strings are sequences of UTF-16 code units. Outside
  `Base64` they are modelled as `string`, where a Dafny `char` stands for one
  code unit of the Basic Multilingual Plane outside U+D800-U+DFFF. Text with
  characters above U+FFFF, which JavaScript stores as two surrogate code units,
  and text with lone surrogates are outside the model: there lengths and
  indices would differ (`'\u{1F600}'.cnLength()` is 4 in JavaScript), and `reverse`
  would split a surrogate pair. In `Base64` a code unit is a number below
  65536, so every UTF-16 string is covered there.
- **Loops.** Code that loops over an array or a string is a `method` with
  its loop and invariants. Each such method is proved equal to a function;
  that function carries the properties.
- **In-place changes.** `JsArray` and `JsObject` are classes whose methods
  change their fields: `remove` and `empty` on an array, `remove` and
  property assignment on an object.
- **Array algorithms.** `random` runs on an array, and so does the sort of
  `numberSort`.
- **Patterns.** A regular expression becomes a predicate that says what the
  pattern accepts. Its alternatives and quantifiers become explicit digit
  runs and fields.
- **Outside inputs.** Randomness and the clock are parameters:
  - the partners drawn by `random`;
  - the nibbles drawn by `uuid`;
  - the current date of `getAge`;
  - the user agent, the query string and the cookie text.
- **Browser decoders.** `decodeURI`, `decodeURIComponent` and `unescape` are
  also parameters. The decoders that can throw return an `Option`.
- **Exceptions.** A thrown `TypeError` or `URIError` is the `Failure` case
  of a `Result`.

## Model

| member | source | states |
|---|---|---|
| JsCore.IndexOf | src/polyfill/String.js:132-134 | `indexOf` is the least index where the text occurs, and -1 exactly when it occurs nowhere |
| JsCore.IndexOfChar | src/polyfill/Browser.js:16 | for one character `indexOf` is its first position |
| JsCore.TrimStart | src/polyfill/Array.js:23-27 | trimming drops exactly the leading white space |
| JsCore.NatToStringValue | src/polyfill/Number.js:48 | the decimal form of a number reads back as the number and has no leading zero |
| JsCore.Split | src/jquery.extend.js:58 | `split('&')` gives one part more than there are separators, none of them holding one |
| JsCore.JoinSplit | src/jquery.extend.js:58 | joining the parts with the separator gives the string back |
| JsCore.Filter | src/polyfill/Array.js:383-394 | `filter` keeps only elements that pass, never more than the input |
| JsCore.FilterCount | src/polyfill/Array.js:383-394 | `filter` keeps every occurrence of a passing element and drops every other |
| JsCore.FilterSubsequence | src/polyfill/Array.js:383-394 | `filter` keeps the input order |
| JsCore.FilterAppend | src/polyfill/Array.js:383-394 | `filter` distributes over concatenation |
| ArrayExt.StringToNumber | src/polyfill/Array.js:23-27 | the number a string converts to under `==`: surrounding white space ignored, the empty string 0, an optional sign and decimal digits read, `None` for NaN; `StringToNumberDigits` states its value on digit strings |
| ArrayExt.LooseEquals | src/polyfill/Array.js:23-27 | `==` on the modelled values: numbers and strings compare directly, a number and a string after converting the string; `LooseEqualsSymmetric` states its symmetry |
| ArrayExt.StringToNumberDigits | src/polyfill/Array.js:23-27 | a string of decimal digits converts, under loose equality, to the number it writes |
| ArrayExt.StrictMemberIsLoose | src/polyfill/Array.js:14-31 | an element `contains` finds strictly it also finds loosely |
| ArrayExt.Contains | src/polyfill/Array.js:14-31 | `contains` answers true exactly when some element equals the argument (`===` when strict, `==` otherwise) |
| ArrayExt.ContainsLooseExample | src/polyfill/Array.js:34-36 | `[1,2,3,4,5].contains('1')` holds |
| ArrayExt.ContainsStrictExample | src/polyfill/Array.js:37-38 | `[1,2,3,4,5].contains('1', true)` does not hold |
| ArrayExt.IndexOfElement | src/polyfill/Array.js:163-223 | `indexOf` gives the least index at or after the normalised start holding the element, and -1 exactly when there is none |
| ArrayExt.JsArray.constructor | src/polyfill/Array.js:97-124 | an array object holding the given elements |
| ArrayExt.JsArray.RemoveAt | src/polyfill/Array.js:98-99 | removal by index deletes the one element at that index (negative counts from the end); an index at or past the end leaves the array alone, and one before `-length` is clamped to 0 and deletes the first element |
| ArrayExt.JsArray.RemoveValue | src/polyfill/Array.js:118-121 | removal by value deletes the first strictly equal element and leaves the array alone when there is none |
| ArrayExt.JsArray.RemoveEach | src/polyfill/Array.js:101-107 | removal by array leaves exactly the elements the argument does not loosely contain, in order |
| ArrayExt.RemoveEachStep | src/polyfill/Array.js:102-106 | one turn of that loop from the end keeps or splices the element at `i` according to the test |
| ArrayExt.RemoveAtDeletesOne | src/polyfill/Array.js:98-99 | removal by index shortens the array by one, removes one copy of that element and keeps the order of the rest |
| ArrayExt.Without | src/polyfill/Array.js:383-395 | the elements of the first array not loosely contained in the second, in order, as the `filter` over `!contains` in `diff`; `WithoutMembers` states its members and order |
| ArrayExt.WithoutMembers | src/polyfill/Array.js:101-107 | after removal by array an element remains exactly when it was there and is not loosely in the argument; the rest keep their order |
| ArrayExt.JsArray.Empty | src/polyfill/Array.js:293-295 | `empty` leaves no element |
| ArrayExt.JsArray.Copy | src/polyfill/Array.js:524-525 | `copy` is a new array with the same elements |
| ArrayExt.SwapAt | src/polyfill/Array.js:250-254 | exchanging two positions keeps the length and the multiset of elements |
| ArrayExt.ShuffleFrom | src/polyfill/Array.js:247-255 | the Fisher-Yates pass keeps the length |
| ArrayExt.ShufflePermutes | src/polyfill/Array.js:247-255 | the shuffle is a permutation of its input |
| ArrayExt.ShuffleInPlace | src/polyfill/Array.js:247-255 | the swap loop on the array leaves in it the shuffle of its old contents |
| ArrayExt.ShuffleStep | src/polyfill/Array.js:247-255 | one swap of the loop advances the shuffle by one position |
| ArrayExt.ShuffledPrefix | src/polyfill/Array.js:257-261 | a prefix of the shuffle holds elements of the input, and the full length holds all of them |
| ArrayExt.RandomPick | src/polyfill/Array.js:246-261 | the first `length` (capped at the array's length) elements of the shuffle: exactly that many, drawn from the array, and all of it when the full length is asked |
| ArrayExt.Random | src/polyfill/Array.js:236-262 | `random(length)` returns `RandomPick` of the array: the first `length` (capped at the array's length) elements of the shuffle |
| ArrayExt.Shuffle | src/polyfill/Array.js:278-280 | `shuffle` has the same result as `random` on the receiver |
| ArrayExt.UniqueFrom | src/polyfill/Array.js:329-338 | the elements whose key has not been seen, each added to the seen keys as it is kept; `UniqueFromProperties` states what it keeps |
| ArrayExt.Unique | src/polyfill/Array.js:329-338 | `unique` keeps one element per key, covers every key of the input except the names a fresh `{}` already answers (`InheritedNames`: `Object.prototype`'s properties and the library's `remove`), and keeps the input order |
| ArrayExt.UniqueStep | src/polyfill/Array.js:331-336 | one turn of `unique`'s loop pushes an element exactly when its key is neither inherited nor recorded |
| ArrayExt.UniqueFromProperties | src/polyfill/Array.js:329-338 | the result has distinct keys, exactly the input's unseen keys, and is a subsequence of the input |
| ArrayExt.UniqueKeepsFirst | src/polyfill/Array.js:329-338 | the element kept for a key is its first occurrence |
| ArrayExt.UniqueFromDistinct | src/polyfill/Array.js:329-338 | an array whose keys are already distinct is returned unchanged |
| ArrayExt.UniqueIdempotent | src/polyfill/Array.js:329-338 | `unique` applied twice equals `unique` applied once, for any set of names counted as seen |
| ArrayExt.UniqueExample | src/polyfill/Array.js:340-344 | `['1', 1, 2].unique()` is `['1', 2]` because `1` and `'1'` give the same key |
| ArrayExt.UniqueInheritedExample | src/polyfill/Array.js:331-334 | `['constructor', 'remove', 'a'].unique()` is `['a']`: names the prototype already answers are dropped |
| ArrayExt.Diff | src/polyfill/Array.js:355-358 | `diff` throws a TypeError exactly when an argument is not an array |
| ArrayExt.Same | src/polyfill/Array.js:421-424 | `same` throws a TypeError exactly when an argument is not an array |
| ArrayExt.DiffMembers | src/polyfill/Array.js:383-394 | one-sided `diff` keeps exactly the elements of the first array not loosely in the second; two-sided adds those of the second not in the first |
| ArrayExt.SameMembers | src/polyfill/Array.js:421-440 | `same` keeps exactly the elements of the first array loosely in the second, in the first array's order |
| ArrayExt.SameDiffPartition | src/polyfill/Array.js:383-386 | `same` and the one-sided `diff` split the first array between them, element for element |
| ArrayExt.SameIgnoresDuplicates | src/polyfill/Array.js:421-440 | duplicating the second array does not change `same` |
| ArrayExt.DisjointDiff | src/polyfill/Array.js:355-440 | with no loosely equal pair across the arrays, `same` is empty and the two-sided `diff` is both arrays concatenated |
| ArrayExt.LooseEqualsSymmetric | src/polyfill/Array.js:23-27 | loose equality is symmetric |
| ArrayExt.DiffExample | src/polyfill/Array.js:401-413 | the documented `diff` examples, including the TypeError for a non-array |
| ArrayExt.DiffDuplicateExample | src/polyfill/Array.js:406-409 | the documented example with a repeated element: `diff` keeps both copies of `'f'` |
| ArrayExt.DiffExampleSide | src/polyfill/Array.js:401-413 | with four shared strings and one different, the one-sided difference is the different one |
| ArrayExt.IsEmpty | src/polyfill/Array.js:506-511 | `isEmpty` holds exactly for a non-array or an array without elements |
| ArrayExt.Max | src/polyfill/Array.js:461-469 | `max` is an element of the array and no element is larger; undefined exactly for the empty array |
| ArrayExt.Min | src/polyfill/Array.js:483-491 | `min` is an element of the array and no element is smaller; undefined exactly for the empty array |
| ArrayExt.NumberSort | src/polyfill/Array.js:543-547 | `numberSort` sorts the array in place, ascending or descending as asked, as a permutation of its old contents, and returns it |
| ArrayExt.InsertLast | src/polyfill/Array.js:543-547 | inserting one element into a sorted prefix extends the sorted prefix and permutes the array |
| ArrayExt.Swap | src/polyfill/Array.js:543-547 | exchanging two elements is a permutation |
| ArrayExt.SortedHead | src/polyfill/Array.js:543-547 | the first element of a sorted array is in order before every element |
| ArrayExt.SortedFromAdjacent | src/polyfill/Array.js:543-547 | the comparator is transitive, so order between neighbours makes the whole array sorted |
| ArrayExt.SortedUnique | src/polyfill/Array.js:543-547 | any two sorted permutations of the same numbers are equal, so the sort result is determined |
| ArrayExt.ExampleOrders | src/polyfill/Array.js:550-552 | the two documented results are sorted permutations of the example input |
| ArrayExt.NumberSortExample | src/polyfill/Array.js:550-552 | sorting `[1, 10, 21, 2]` gives `[1, 2, 10, 21]` ascending and `[21, 10, 2, 1]` descending |
| Base64.KeyAtValue | dist/polyfill.js:562 | the alphabet lists the capitals, then the small letters, then the digits, then `+`, `/` and the pad `=` |
| Base64.KeyIndex | dist/polyfill.js:609-612 | looking a character up in the alphabet gives a position up to 64, and -1 exactly for a character outside the alphabet |
| Base64.KeyIndexInverse | dist/polyfill.js:609-612 | the lookup finds every alphabet character at its own position, so the alphabet has no repeats |
| Base64.KeyIndexFound | dist/polyfill.js:609-612 | a found character sits at the position the lookup reports |
| Base64.Strip | dist/polyfill.js:605 | after the stripping `replace` only alphabet characters remain |
| Base64.StripIgnoresForeign | dist/polyfill.js:605 | a character outside the alphabet does not change the stripped input |
| Base64.DecodeIgnoresForeign | dist/polyfill.js:599-633 | a character outside the alphabet does not change what `decode` returns |
| Base64.NormalizeNewlines | dist/polyfill.js:637 | the CR LF to LF pass never lengthens the text |
| Base64.NormalizeNewlinesIdentity | dist/polyfill.js:637 | text with no CR LF pair is unchanged by the pass |
| Base64.NormalizeNewlinesOnePass | dist/polyfill.js:637 | the single pass turns CR CR LF into CR LF, so it is not idempotent |
| Base64.Utf8UnitsBytes | dist/polyfill.js:640-657 | every unit `_utf8_encode` writes is a byte, one to three per code unit |
| Base64.Utf8UnitsAscii | dist/polyfill.js:644-646 | ASCII text encodes to itself |
| Base64.Utf8Units | dist/polyfill.js:636-660 | the UTF-8 units of a string, one to three per code unit by its range; `Utf8UnitsBytes` and `Utf8RoundTrip` state its shape and inverse |
| Base64.Utf8Encode | dist/polyfill.js:636-660 | the loop of `_utf8_encode` writes the one-, two- or three-byte form of each code unit of the newline-normalised text, in order |
| Base64.Utf8Decoded | dist/polyfill.js:663-691 | one code unit per lead unit and the units that follow it, the sequence length read from the lead unit; `Utf8RoundTrip` states that it inverts `Utf8Units` |
| Base64.Utf8Decode | dist/polyfill.js:663-691 | the loop of `_utf8_decode` reads the sequences one after another, each by its lead byte |
| Base64.DecodeUnitAt | dist/polyfill.js:670-686 | one turn of the decoding loop reads the code unit at `i` and advances past its one-, two- or three-byte sequence |
| Base64.UnitDecodesBack | dist/polyfill.js:644-686 | the bytes written for one code unit begin a sequence of exactly their own length that decodes to that code unit |
| Base64.Utf8UnitRoundTrip | dist/polyfill.js:636-691 | decoding the bytes of one code unit followed by more gives that code unit followed by the decoding of the rest |
| Base64.Utf8RoundTrip | dist/polyfill.js:636-691 | `_utf8_decode` inverts the encoding loop of `_utf8_encode` on every string of 16-bit code units |
| Base64.EncodeIndices | dist/polyfill.js:578-587 | the two first indices of a group are below 64, the last two at most 64 (the pad) |
| Base64.EncodeGroupAt | dist/polyfill.js:589-591 | every group writes four characters |
| Base64.Encoded | dist/polyfill.js:565-596 | `Base64.encode` as a function: the groups of the UTF-8 form of the input with CR LF normalised; `EncodedShape` and `EncodeDecodeRoundTrip` state its shape and inverse |
| Base64.Encode | dist/polyfill.js:565-596 | the loop of `encode` writes the groups of the UTF-8 form of the input, one after another |
| Base64.EncAt | dist/polyfill.js:609-612 | the lookup of a character past the end finds the empty string at 0, and no index exceeds 64 |
| Base64.DecodeQuad | dist/polyfill.js:614-625 | one turn of the decoding loop rebuilds one to three bytes from four indices, dropping those the pads mark |
| Base64.Decoded | dist/polyfill.js:599-633 | `Base64.decode` as a function: strip to the alphabet, rebuild the bytes of each group, UTF-8-decode; `DecodeIgnoresForeign` and `EncodeDecodeRoundTrip` state its properties |
| Base64.Decode | dist/polyfill.js:599-633 | the loop of `decode` strips the input, rebuilds its groups of bytes and UTF-8-decodes them |
| Base64.GroupShape | dist/polyfill.js:578-591 | a group is four alphabet characters whose two first are never the pad, with no pad when three bytes are there |
| Base64.EncodeGroupsShape | dist/polyfill.js:572-593 | `n` bytes become `4 * ceil(n / 3)` alphabet characters |
| Base64.PadCount | dist/polyfill.js:583-587 | at most two pads, and none exactly when the byte count is a multiple of three |
| Base64.EncodeGroupsPadding | dist/polyfill.js:583-587 | the encoding of `n` bytes ends in exactly two `=` when `n % 3 == 1`, exactly one when `n % 3 == 2`, none otherwise, and every character before them is not a pad |
| Base64.GroupRoundTrip | dist/polyfill.js:572-627 | decoding the characters written for a group gives its one to three bytes back |
| Base64.GroupDecodesBack | dist/polyfill.js:578-587 | the bit arithmetic of decoding undoes that of encoding on the indices of one group |
| Base64.DecodeGroupBytes | dist/polyfill.js:614-625 | decoding the indices written for `n` bytes gives back those `n` bytes |
| Base64.FirstByteBack | dist/polyfill.js:614 | the first byte comes back from the first two indices |
| Base64.SecondByteBack | dist/polyfill.js:615 | the second byte comes back from the second and third indices |
| Base64.ThirdByteBack | dist/polyfill.js:616 | the third byte comes back from the last two indices |
| Base64.GroupsRoundTrip | dist/polyfill.js:565-633 | Base64 decoding inverts Base64 encoding on every byte string |
| Base64.EncodeDecodeRoundTrip | dist/polyfill.js:565-691 | `decode(encode(s))` is `s` with CR LF pairs turned into LF, and exactly `s` when it has none |
| Base64.EncodedShape | dist/polyfill.js:565-596 | the output of `encode` has length `4 * ceil(n / 3)` for `n` UTF-8 bytes, only alphabet characters, and ends in exactly two, one or no `=` as `n % 3` is 1, 2 or 0, with no pad before them |
| Base64.EncodeGroupsExample | dist/polyfill.js:695 | the bytes of `Test` encode group by group to the documented characters |
| Base64.EncodeExample | dist/polyfill.js:695 | `encode("Test")` is the documented output |
| Base64.DecodeExample | dist/polyfill.js:696 | decoding the documented output gives `Test` |
| StringExt.Reverse | src/polyfill/String.js:113-119 | the loop of `reverse` produces the string read backwards |
| StringExt.Reversed | src/polyfill/String.js:113-119 | the characters from last to first; `ReversedIndex` and `ReverseInvolution` state its mirrored indices and involution |
| StringExt.ReversedIndex | src/polyfill/String.js:113-119 | the reversal keeps the length and puts each character at its mirrored index |
| StringExt.ReverseInvolution | src/polyfill/String.js:113-119 | reversing twice gives the string back |
| StringExt.Contains | src/polyfill/String.js:132-134 | `contains` holds exactly when the text occurs somewhere in the string |
| StringExt.Format | src/polyfill/String.js:146-170 | `/\{(\d+)\}/g` replaced left to right by the named argument, a placeholder naming no argument or an `undefined` one (`None`) kept as it is; `FormatPlaceholder` and `FormatNoArgs` state its behaviour |
| StringExt.FormatPlainPrefix | src/polyfill/String.js:164-169 | text without `{` is copied unchanged by `format` |
| StringExt.FormatNoArgs | src/polyfill/String.js:166-168 | with no arguments every placeholder stays verbatim, so the template comes back unchanged |
| StringExt.FormatPlaceholder | src/polyfill/String.js:166-168 | for every index `k`, the placeholder `{k}` is replaced by exactly the value of `args[k]` when that argument exists and is not `undefined`, and is kept verbatim when it is missing or `undefined` |
| StringExt.FormatExample | src/polyfill/String.js:172-173 | the documented `format` example gives the documented sentence |
| StringExt.FormatUndefinedExample | src/polyfill/String.js:166-168 | an argument passed as `undefined` leaves its placeholder in place: `'{0}{1}'.format(undefined, 'b')` is `{0}b` |
| StringExt.Widened | src/polyfill/String.js:50 | replacing every character above `\xff` by two characters adds one to the length per wide character |
| StringExt.CnLength | src/polyfill/String.js:48-51 | `cnLength` counts every wide character twice and every other once, so it is at most twice the length |
| StringExt.CnLengthExample | src/polyfill/String.js:62-67 | `'hello你好'` has length 7 and `cnLength` 9 |
| StringExt.Number | src/polyfill/String.js:182-185 | `number` leaves only digits, and decimal points when `float` is set |
| StringExt.NumberCounts | src/polyfill/String.js:182-185 | `number` keeps every digit (and point) as often as it occurs, in order, and drops everything else |
| StringExt.NumberAppend | src/polyfill/String.js:182-185 | `number` distributes over concatenation |
| StringExt.NumberExample | src/polyfill/String.js:188-190 | `'1.0, 1996'.number()` is `'101996'` |
| StringExt.NumberFloatExample | src/polyfill/String.js:188-190 | `'1.0, 1996'.number(1)` is `'1.01996'` |
| StringExt.English | src/polyfill/String.js:218-221 | `english` leaves only ASCII letters |
| StringExt.EnglishCounts | src/polyfill/String.js:218-221 | `english` keeps every ASCII letter as often as it occurs, in order, and drops everything else |
| StringExt.Chinese | src/polyfill/String.js:201-204 | `chinese` leaves only characters of the two ideograph ranges |
| StringExt.ChineseCounts | src/polyfill/String.js:201-204 | `chinese` keeps every such ideograph as often as it occurs, in order, and drops everything else |
| StringExt.ResetBlank | src/polyfill/String.js:279-282 | `resetBlank` maps the empty string only to itself and turns a leading run of white space into one space |
| StringExt.ResetBlankCollapses | src/polyfill/String.js:279-282 | the result has no two adjacent white-space characters, and its only white space is plain spaces |
| StringExt.ResetBlankFixes | src/polyfill/String.js:279-282 | a string already in that form is its own `resetBlank` |
| StringExt.ResetBlankIdempotent | src/polyfill/String.js:279-282 | `resetBlank` changes a string exactly when it is not collapsed, and applying it twice equals applying it once |
| StringExt.ResetBlankKeepsText | src/polyfill/String.js:279-282 | the characters other than white space are kept, in order |
| StringExt.FirstUpperCase | src/polyfill/String.js:13-34 | `firstUpperCase` keeps the length |
| StringExt.FirstUpperCaseFirstOnly | src/polyfill/String.js:27-30 | without `perword` the first character is capitalised and the rest is lower case |
| StringExt.FirstUpperCasePerWord | src/polyfill/String.js:14-18 | with `perword` a character comes out as a capital exactly when it is a letter starting a word |
| StringExt.FirstUpperCaseIdempotent | src/polyfill/String.js:13-34 | capitalising twice equals capitalising once |
| StringExt.FirstUpperCaseExample | src/polyfill/String.js:37-40 | `'hello world'` and `'HELLO WORLD'` give `'Hello world'`, and `'Hello World'` with `perword` |
| Validators.DigitsBounds | src/polyfill/RegExp.js:157-159 | a field of `n` digits without a leading zero is worth between `10^(n-1)` and `10^n - 1` |
| Validators.IsEmpty | src/polyfill/RegExp.js:15-17 | `/^\s*$/` consumed one character at a time; `IsEmptyAllSpace` states it is all white space |
| Validators.IsEmptyAllSpace | src/polyfill/RegExp.js:15-17 | `isEmpty` holds exactly when every character is white space |
| Validators.IsEmptyExamples | src/polyfill/RegExp.js:20-21 | `''` and `' '` are empty, `' a'` is not |
| Validators.IsDate | src/polyfill/RegExp.js:30-32 | `/^\d{4}\-\d{1,2}-\d{1,2}$/` read by digit runs; `DateCompose` and `DateParts` state both directions |
| Validators.DateCompose | src/polyfill/RegExp.js:30-32 | four year digits, one or two month digits and one or two day digits joined by dashes form a date |
| Validators.DateParts | src/polyfill/RegExp.js:30-32 | every date splits into exactly such parts; no range of month or day is checked |
| Validators.IsDateExample | src/polyfill/RegExp.js:35-38 | `'2016-05-19'` is a date |
| Validators.IsDateCounterExample | src/polyfill/RegExp.js:30-32 | the pattern is anchored: trailing text is rejected |
| Validators.IsIdCard | src/polyfill/RegExp.js:104-106 | `/^\d{14}(\d{4}|(\d{3}[xX])|\d{1})$/`: 15 or 18 digits, or 17 digits and `x` or `X`; `IdCardShape` states its shape |
| Validators.IdCardShape | src/polyfill/RegExp.js:104-106 | an identity card number has 15 or 18 characters, all but the last of them digits |
| Validators.IdCardExamples | src/polyfill/RegExp.js:109-112 | eighteen zeros and an 18-character number ending in `X` are accepted; 16 or 19 digits are not |
| Validators.IsIP | src/polyfill/RegExp.js:121-123 | four dot-separated fields, each one of the expression's three alternatives; `IsIPValues` states it by the fields' values |
| Validators.OctetValue | src/polyfill/RegExp.js:121-123 | the three alternatives of a field together accept exactly the one- to three-digit fields worth at most 255 |
| Validators.FieldsValues | src/polyfill/RegExp.js:121-123 | the dotted fields read by the pattern are exactly the fields of one to three digits worth at most 255 |
| Validators.IsIPValues | src/polyfill/RegExp.js:121-123 | `isIP` holds exactly for four dot-separated fields of one to three digits, each worth at most 255 |
| Validators.ByteField | src/polyfill/RegExp.js:121-123 | the decimal form of a byte value is an accepted field |
| Validators.DottedQuad | src/polyfill/RegExp.js:121-123 | every dotted quad of byte values written in decimal is accepted |
| Validators.FieldsQuad | src/polyfill/RegExp.js:121-123 | four accepted fields joined by dots are accepted |
| Validators.IsIPExample | src/polyfill/RegExp.js:126-129 | `'127.0.0.1'` is an address |
| Validators.IsIPCounterExample | src/polyfill/RegExp.js:121-123 | a field worth 256 is rejected |
| Validators.IsPhone | src/polyfill/RegExp.js:138-140 | `/^(13|14|15|17|18)\d{9}$/`: eleven digits starting `13`, `14`, `15`, `17` or `18`; `PhoneAndZipAreQQ` and `PhoneExamples` state its relations and cases |
| Validators.IsQQ | src/polyfill/RegExp.js:157-159 | `/^[1-9]\d{4,10}$/`: 5 to 11 digits, the first not zero; `QQRange` states its value range |
| Validators.IsZipCode | src/polyfill/RegExp.js:242-244 | `/^[1-9]\d{5}(?!\d)$/`: six digits, the first not zero; `ZipCodeRange` states its value range |
| Validators.QQRange | src/polyfill/RegExp.js:157-159 | a QQ number is worth between `10^4` and `10^11 - 1` |
| Validators.ZipCodeRange | src/polyfill/RegExp.js:242-244 | a zip code is worth between 100000 and 999999 |
| Validators.PhoneAndZipAreQQ | src/polyfill/RegExp.js:138-159 | every mobile number and every zip code is also accepted as a QQ number |
| Validators.PhoneExamples | src/polyfill/RegExp.js:143-148 | `13800138000` is a mobile number; a wrong second digit, a leading zero or a short number is not |
| Validators.ZipCodeExamples | src/polyfill/RegExp.js:247-250 | `518000` is a zip code; seven digits or a leading zero are not |
| Validators.QQExamples | src/polyfill/RegExp.js:162-165 | `10001` is a QQ number; four digits or a leading zero are not |
| Validators.IsTel | src/polyfill/RegExp.js:174-176 | `/^\d{3,4}-\d{7,8}$/` read by digit runs; `TelCompose` and `TelParts` state both directions |
| Validators.TelCompose | src/polyfill/RegExp.js:174-176 | an area code of 3 or 4 digits, a dash and 7 or 8 digits form a telephone number |
| Validators.TelParts | src/polyfill/RegExp.js:174-176 | every telephone number splits into exactly such parts |
| Validators.TelExamples | src/polyfill/RegExp.js:179-180 | `010-12345678` is a telephone number and `12345678` is not |
| Validators.IsUsername | src/polyfill/RegExp.js:208-210 | `/^[a-zA-Z][a-zA-Z0-9_]{4,15}$/`: 5 to 16 word characters starting with a letter; `UsernameIsWeakPassword` and `UsernameExamples` state its relation and cases |
| Validators.UsernameIsWeakPassword | src/polyfill/RegExp.js:208-264 | a user name of at least six characters is also accepted as a weak password |
| Validators.UsernameExamples | src/polyfill/RegExp.js:213-216 | `abc_123` is a user name; one with a dash or starting with a digit is not |
| Validators.IsWeakPassword | src/polyfill/RegExp.js:264 | `/^[a-zA-Z]\w{5,17}$/`: 6 to 18 word characters starting with a letter; `IsPassword` states it as an iff |
| Validators.IsStrongPassword | src/polyfill/RegExp.js:262 | the strong pattern as written: 8 to 10 characters that are not line terminators, with a digit and a letter (the `i` flag makes both look-aheads ask for any letter); `IsPassword` and `StrongAcceptsLowerCaseOnly` state it |
| Validators.IsPassword | src/polyfill/RegExp.js:260-266 | a password passes the strong form exactly when it has 8 to 10 characters, none a line terminator, with a digit and a letter of either case (the `i` flag); it passes the weak form exactly when it has 6 to 18 word characters starting with a letter |
| Validators.PasswordExamples | src/polyfill/RegExp.js:260-272 | the documented examples, and the all-lower-case `abcd1234` passes the strong form as written |
| Validators.StrongAcceptsLowerCaseOnly | src/polyfill/RegExp.js:262 | the strong pattern as written accepts `abcd1234`, which has no capital letter |
| Validators.IntendedStrongPassword | src/polyfill/RegExp.js:255-262 | the documented strong form implies the written one and rejects `abcd1234` |
| Validators.IsVersion | src/polyfill/RegExp.js:225-227 | the unanchored `/\d+(\.\d+)+/` matches exactly where a digit, a dot and a digit are adjacent; `VersionInside` and `VersionNeedsDot` state its properties |
| Validators.VersionInside | src/polyfill/RegExp.js:225-227 | the unanchored version pattern found inside a string is found in any string around it |
| Validators.VersionNeedsDot | src/polyfill/RegExp.js:225-227 | a string without a dot is never a version |
| Validators.VersionExamples | src/polyfill/RegExp.js:230-233 | `3.8.2` is a version and `382` is not |
| NumberExt.HexRun | src/polyfill/Number.js:12-14 | the hexadecimal digits `parseInt` reads after `0x` are a maximal run |
| NumberExt.ParseInt | src/polyfill/Number.js:12-14 | `parseInt(s)` without radix: leading white space skipped, one sign read, then the decimal digits or `0x` and hex digits, `None` for NaN; `ParseDecimal`, `ParseUnsigned` and `ParseNegative` state its cases |
| NumberExt.ParseDecimal | src/polyfill/Number.js:12-14 | `parseInt` reads decimal digits followed by anything that cannot continue them as their value |
| NumberExt.ParseUnsigned | src/polyfill/Number.js:12-14 | text starting with neither white space nor a sign is read by the digit reader alone |
| NumberExt.ParseNegative | src/polyfill/Number.js:12-14 | a leading minus negates the digits after it |
| NumberExt.ToInt | src/polyfill/Number.js:12-14 | `Number.toInt`: the value `parseInt` reads, or 0 where it gives NaN; `ToIntRoundTrip` and `ToIntNotNumeric` state it |
| NumberExt.ToIntRoundTrip | src/polyfill/Number.js:12-14 | `toInt` of the decimal form of an integer gives that integer back |
| NumberExt.ToIntDigits | src/polyfill/Number.js:12-14 | a run of decimal digits reads as its value whatever non-digit follows |
| NumberExt.ToIntNotNumeric | src/polyfill/Number.js:12-14 | text `parseInt` cannot read (`NaN`) gives 0 |
| NumberExt.ToIntAllDigits | src/polyfill/Number.js:12-14 | a whole string of decimal digits reads as its value |
| NumberExt.ToIntExamples | src/polyfill/Number.js:17-19 | `toInt('1') + toInt('2')` is 3 |
| NumberExt.ToIntNotANumberExample | src/polyfill/Number.js:20 | `toInt('a')` is 0 |
| JsCore.Repeat | src/polyfill/Number.js:49-51 | `k` copies of one character: the zeros the padding loop prepends, and the `x` runs of the UUID template |
| NumberExt.Padded | src/polyfill/Number.js:47-53 | a string padded on the left with zeros to at least `length` characters; `PaddedShape` and `PaddedValue` state its shape and value |
| NumberExt.WithZero | src/polyfill/Number.js:47-53 | the loop of `withZero` puts zeros in front of the decimal form until it is `length` long |
| NumberExt.PaddedShape | src/polyfill/Number.js:47-53 | the padded form is `max(length, n)` long and ends with the unpadded form |
| NumberExt.PaddedLongEnough | src/polyfill/Number.js:49 | a form already `length` long or longer is returned unchanged |
| NumberExt.ZerosKeepValue | src/polyfill/Number.js:49-51 | leading zeros do not change the value of a string of digits |
| NumberExt.PaddedValue | src/polyfill/Number.js:47-53 | the padded form of a non-negative number still reads as that number |
| NumberExt.WithZeroExample | src/polyfill/Number.js:56 | `Number(7).withZero(3)` is `'007'` |
| NumberExt.Binary | src/polyfill/Number.js:79 | the binary form of a positive number starts with `1` |
| NumberExt.BinaryBounds | src/polyfill/Number.js:79 | a positive number lies between the powers of two its binary length names |
| NumberExt.Powers | src/polyfill/Number.js:81-83 | one power per binary digit |
| NumberExt.SplitPowSpec | src/polyfill/Number.js:77-85 | what `splitPow` returns: one power of two per binary digit, largest first, and `[]` for a number not above zero; `SplitPowFirst` and `PowersSum` state its properties |
| NumberExt.SplitPow | src/polyfill/Number.js:77-85 | the loop of `splitPow` overwrites digit `i` of the binary form with `2^(n-i-1)`, and returns nothing for a non-positive number |
| NumberExt.PowersSum | src/polyfill/Number.js:81-83 | the returned powers add up to `2^n - 1` |
| NumberExt.SplitPowFirst | src/polyfill/Number.js:77-85 | for a positive number the first entry is the largest power of two not above it |
| NumberExt.SplitPowNonPositive | src/polyfill/Number.js:78 | zero and negative numbers give the empty array |
| NumberExt.SplitPowExample | src/polyfill/Number.js:88 | `Number(15).splitPow()` is `[8, 4, 2, 1]` |
| DateExt.FormatSpec | src/polyfill/Date.js:17-51 | what `format` returns: the year run, then the week run, then each table token's first run replaced in turn; `FormatExample` and `FormatPlain` state it |
| DateExt.Format | src/polyfill/Date.js:17-51 | the method applies the year, then the week day, then each token of the table in turn, and gives what `FormatSpec` describes |
| DateExt.Substr | src/polyfill/Date.js:37-38 | `substr(start)` is a suffix of the string, `length - start` long for a start inside it |
| DateExt.FirstRun | src/polyfill/Date.js:36-49 | the run `/(c+)/` captures is the first maximal run of the token characters, and there is none exactly when no such character occurs |
| DateExt.FirstRunIs | src/polyfill/Date.js:36-49 | the first run is determined by where it starts and where it stops |
| DateExt.Quarter | src/polyfill/Date.js:24 | `Math.floor((month + 3) / 3)`; `QuarterOfMonth` states its range |
| DateExt.QuarterOfMonth | src/polyfill/Date.js:24 | the quarter of a zero-based month is 1 to 4, three months each |
| DateExt.YearTextDigits | src/polyfill/Date.js:36-39 | for a four-digit year a run of one to four `y`s prints its last that many digits |
| DateExt.FieldTextPadded | src/polyfill/Date.js:44-49 | a run of two or more letters prints two characters, the value zero-padded when below 100 |
| DateExt.OnlyFirstRunExample | src/polyfill/Date.js:44-49 | a token is replaced at its first run only: `MM/MM` in July gives `07/MM` |
| DateExt.FormatPlain | src/polyfill/Date.js:17-51 | a format without token characters is returned unchanged |
| DateExt.NoLetterFields | src/polyfill/Date.js:44-49 | text without letters is left alone by the table tokens |
| DateExt.FormatExample | src/polyfill/Date.js:54-55 | 10 July 2014 formatted with `yyyy-MM-dd` gives `2014-07-10` |
| DateExt.Rem | src/polyfill/Date.js:80 | JavaScript's `%` takes the sign of the dividend |
| DateExt.IsLeapYear | src/polyfill/Date.js:69-81 | `!(y % (y % 100 ? 4 : 400))` with JavaScript's truncating `%`; `LeapYearRule` states it is the Gregorian rule |
| DateExt.LeapYearRule | src/polyfill/Date.js:69-81 | the compact test is the Gregorian rule: divisible by 4 and not by 100, or divisible by 400, for negative years too |
| DateExt.LeapYearExamples | src/polyfill/Date.js:63-64 | 2000, 2004 and 2016 are leap years; 1900 and 2017 are not |
| DateExt.GetAge | src/polyfill/Date.js:96-105 | the age is the year difference less one before the birthday; the birthday of that age is not after today and that of the next age is |
| DateExt.LeadingDigit | src/polyfill/Date.js:123-131 | `parseInt` of a quotient written in exponent form reads its leading digit, 1 to 9 |
| DateExt.TruncateWhole | src/polyfill/Date.js:123-131 | the corrected `diff` counts the whole intervals elapsed, symmetrically in either direction |
| DateExt.DiffAgreement | src/polyfill/Date.js:123-131 | the written and corrected `diff` agree except for a nonzero quotient below `1e-6` in magnitude, where only the corrected one gives 0 |
| DateExt.DiffAsWritten | src/polyfill/Date.js:118-139 | `diff` as written: `parseInt` of the quotient for the fixed-length units, the calendar difference for months and years, `undefined` or a TypeError for the other targets; `DiffOneMillisecond` and `DiffAgreement` state it |
| DateExt.Diff | src/polyfill/Date.js:118-139 | `diff` with the quotient truncated toward zero, otherwise as written; `TruncateWhole` and `DiffUndefined` state it |
| DateExt.DiffOneMillisecond | src/polyfill/Date.js:127 | as written, one millisecond read in hours gives 2; the corrected `diff` gives 0 |
| DateExt.CalendarDiffAdditive | src/polyfill/Date.js:133-135 | month and year differences add up along three dates and change sign when swapped |
| DateExt.DiffUndefined | src/polyfill/Date.js:120-137 | a missing or non-Date target and an unknown interval give undefined; a null target throws a TypeError |
| DateExt.DiffHoursExample | src/polyfill/Date.js:142-146 | 09:00 to 18:00 on one day is 9 hours, in both readings |
| DateExt.WeekCharNames | src/polyfill/Date.js:162-163 | the week-day character `toCNDate` decodes from its digit table is the name `format` prints for the same day |
| DateExt.CNDateMonthField | src/polyfill/Date.js:154-165 | for a four-digit year the Chinese date text is 25 characters, the month at positions 5 and 6 |
| DateExt.ToCNDateAsWritten | src/polyfill/Date.js:154-165 | `toCNDate` as written, with the zero-based `getMonth()` as the month field; `ToCNDateMonthAsWritten` states the month it prints |
| DateExt.ToCNDate | src/polyfill/Date.js:154-165 | `toCNDate` with the calendar month; `ToCNDateMonth` states the month it prints |
| DateExt.ToCNDateMonthAsWritten | src/polyfill/Date.js:157 | as written the month field is the zero-based month, one less than the calendar month for every date |
| DateExt.ToCNDateMonth | src/polyfill/Date.js:154-165 | the corrected text prints the calendar month 1 to 12, the value `format` prints for `M` |
| ObjectExt.IsEmpty | src/polyfill/Object.js:29-34 | `isEmpty` is true exactly when the value has no enumerable key |
| ObjectExt.EnumerableKeysEmpty | src/polyfill/Object.js:37-42 | the values without keys are the empty string, the empty array, the empty object and every value with no properties (undefined, null, numbers, booleans) |
| ObjectExt.TagIsLegal | src/polyfill/Object.js:55-65 | the tag of every modelled value is one of the legal type names |
| ObjectExt.IsType | src/polyfill/Object.js:53-70 | `isType` throws a TypeError exactly when `illegal` is unset and the capitalised name is not legal; otherwise it is true exactly when the value's tag is that name |
| ObjectExt.IsTypeIgnoresCase | src/polyfill/Object.js:54 | names differing only in letter case give the same answer |
| ObjectExt.CapitalisedFixed | src/polyfill/Object.js:54 | a name written with one capital and then small letters is its own capitalised form |
| ObjectExt.IsTypeOwnTag | src/polyfill/Object.js:69 | a value is of the type its own tag names |
| ObjectExt.IsTypeIllegalName | src/polyfill/Object.js:66-69 | an illegal name throws unless `illegal` is set, in which case it never matches |
| ObjectExt.IsTypeStringExample | src/polyfill/Object.js:76 | `isType("foobar", 'String')` is true |
| ObjectExt.IsTypeNumberExample | src/polyfill/Object.js:77 | `isType(123, 'number')` is true: the name is capitalised first |
| ObjectExt.IsTypeIllegalExample | src/polyfill/Object.js:83-84 | `isType(1, 'test')` throws a TypeError and `isType(1, 'test', 1)` is false |
| ObjectExt.JsObject.constructor | src/polyfill/Object.js:94-100 | an object holding the given own properties |
| ObjectExt.JsObject.Set | src/polyfill/Object.js:17-19 | an assignment changes that one property |
| ObjectExt.JsObject.Remove | src/polyfill/Object.js:94-100 | `remove` with a falsy argument changes nothing; with an array of keys it deletes each of them; with any other truthy value it throws a `TypeError` and changes nothing |
| ObjectExt.RemovedProperties | src/polyfill/Object.js:94-100 | after `remove(keys)` no key is present, every other property keeps its value, and nothing is added |
| ObjectExt.Clone | src/polyfill/Object.js:12-14 | `clone` is a new object with the same own properties |
| Browser.IsPCSpec | src/polyfill/Browser.js:11-22 | no mobile token's first occurrence lies after the start of the user agent; `IsPCIff` and `IsPCTokenAtStart` state it |
| Browser.IsPC | src/polyfill/Browser.js:11-22 | the loop of `isPC` answers what `IsPCSpec` describes: no mobile token occurs after the start of the user agent |
| Browser.IsPCIff | src/polyfill/Browser.js:15-20 | a user agent is not a PC exactly when some mobile token occurs at a position above 0 and not at 0 |
| Browser.IsPCEmpty | src/polyfill/Browser.js:11-22 | the empty user agent is taken for a PC |
| Browser.IsPCTokenAtStart | src/polyfill/Browser.js:16 | a token found only at index 0 does not count, because the test is `> 0` |
| Browser.IsPCMobileExample | src/polyfill/Browser.js:16 | a typical iPhone user agent is not a PC |
| Browser.FirstParam | src/polyfill/Browser.js:34 | the leftmost match of `[?&]name=`, and none exactly when there is no match |
| Browser.PlusToSpace | src/polyfill/Browser.js:35 | every `+` becomes a space and nothing else changes |
| Browser.GetUrlParam | src/polyfill/Browser.js:29-36 | `getUrlParam`: `null` without a match, else the text after the leftmost `?name=` or `&name=` up to `&`, `+` made a space, decoded; `GetUrlParamNull` and `GetUrlParamValue` state it |
| Browser.GetUrlParamNull | src/polyfill/Browser.js:29-36 | `getUrlParam` gives null exactly when `?name=` and `&name=` occur nowhere |
| Browser.GetUrlParamValue | src/polyfill/Browser.js:29-36 | for the leftmost match the value is the decoded text up to `&` or the end with `+` read as space, and a decoding failure throws |
| Browser.ParamTextAt | src/polyfill/Browser.js:34 | the captured text is what follows `name=` up to `&` or the end |
| Browser.GetUrlParamExample | src/polyfill/Browser.js:34-35 | `?id=1&name=a+b` read for `name` gives `a b` |
| Browser.FirstCookie | src/polyfill/Browser.js:91 | the leftmost place where `name=` stands at the start or after a space |
| Browser.GetCookie | src/polyfill/Browser.js:90-94 | `getCookie`: `null` without a match, else the text after the first `name=` at the start or after a space, up to `;`, unescaped; `GetCookieNull` and `GetCookieValue` state it |
| Browser.GetCookieNull | src/polyfill/Browser.js:90-94 | `getCookie` gives null exactly when `name=` stands neither at the start nor after a space |
| Browser.GetCookieValue | src/polyfill/Browser.js:90-94 | for the leftmost match the result is the unescaped text up to `;` or the end |
| Browser.CookieTextAt | src/polyfill/Browser.js:91-92 | the captured text is what follows `name=` up to `;` or the end |
| Browser.GetCookieInsideName | src/polyfill/Browser.js:91 | a name occurring only inside another cookie's name is not found |
| Uuid.HexDigit | src/polyfill/Server.js:15 | a nibble prints as one lower-case hexadecimal digit |
| Uuid.HexValueDigit | src/polyfill/Server.js:15 | the digit reads back as the nibble it was printed from |
| Uuid.Variant | src/polyfill/Server.js:14 | the variant nibble is 8 to 11 |
| Uuid.VariantBits | src/polyfill/Server.js:14 | the variant keeps the two low bits of the draw and sets the two high bits to `10` |
| Uuid.Fill | src/polyfill/Server.js:13-16 | the replacement keeps the template's length |
| Uuid.FillAt | src/polyfill/Server.js:13-16 | each placeholder is replaced from its own draw, in order, and every other character is kept |
| Uuid.FillSame | src/polyfill/Server.js:13-16 | two draws fill a template alike exactly when they agree slot by slot, so no draw is lost |
| Uuid.TemplateLayout | src/polyfill/Server.js:13 | the template is 36 characters of the 8-4-4-4-12 layout |
| Uuid.TemplateSlots | src/polyfill/Server.js:13 | the template has 31 placeholders: fifteen `x`, the variant `y`, and fifteen `x` |
| Uuid.UuidLayout | src/polyfill/Server.js:12-21 | an id has dashes exactly at 8, 13, 18 and 23, the version `4` at 14, a variant digit from `89ab` at 19, and a draw's hexadecimal digit at every other place |
| Uuid.UuidPrefix | src/polyfill/Server.js:17-19 | a non-empty prefix comes first, verbatim; an empty one adds nothing |
| Uuid.UuidSame | src/polyfill/Server.js:12-21 | two draws give the same id exactly when they agree on every nibble but the variant's, and on its two low bits |
| QueryString.Query | src/jquery.extend.js:50-54 | the query text: after the first `?` of the url, or `location.search` without its first character when the url is empty; `QueryAfterMark` states it |
| QueryString.Collect | src/jquery.extend.js:59-66 | what the loop leaves in `args`: each segment holding `=` recorded under its name with its decoded value, except `__proto__`, and a URIError where a value does not decode; `CollectKeys`, `CollectLastWins` and `CollectFails` state it |
| QueryString.UrlSpec | src/jquery.extend.js:49-68 | what `h.url` returns: the query decoded, split at `&`, then collected; `UrlResult` states its failures and keys |
| QueryString.Url | src/jquery.extend.js:49-68 | `h.url` picks the query, decodes it, splits it at `&` and records each segment holding `=`, except one named `__proto__`, whose assignment on a fresh object records nothing |
| QueryString.QueryAfterMark | src/jquery.extend.js:50-54 | without `?` the whole url is the query; otherwise the query starts after the first `?` |
| QueryString.SegmentParts | src/jquery.extend.js:60-63 | a segment holding `=` is its name, the first `=`, and its value; the name has no `=` |
| QueryString.NameValue | src/jquery.extend.js:60-63 | a segment built from a name without `=`, an `=` and a value splits back into them |
| QueryString.CollectStep | src/jquery.extend.js:59-66 | one turn of the loop skips a segment without `=`, throws when its value does not decode, and otherwise records the decoded value under its name unless the name is `__proto__` |
| QueryString.CollectFails | src/jquery.extend.js:59-66 | the loop throws exactly when some segment holding `=` has a value `decodeURI` rejects |
| QueryString.CollectKeys | src/jquery.extend.js:59-66 | the result holds exactly the names of the segments holding `=` other than `__proto__`; segments without `=` are skipped |
| QueryString.CollectUntouched | src/jquery.extend.js:59-66 | a key no segment names keeps the value it had |
| QueryString.CollectLastWins | src/jquery.extend.js:65 | for a repeated name other than `__proto__` the last segment's decoded value is kept |
| QueryString.UrlResult | src/jquery.extend.js:49-68 | `h.url` throws exactly when decoding the query or one of its values fails; otherwise its keys are the names of the segments holding `=`, except `__proto__` |
| QueryString.CollectExample | src/jquery.extend.js:59-66 | `a=1&c&a=2=3` gives `{a: '2=3'}` |
| QueryString.CollectProtoExample | src/jquery.extend.js:55-65 | `__proto__=x&b=1` gives `{b: '1'}`: the `__proto__` segment adds no key |

## Left out

- Strings holding characters above U+FFFF or lone surrogates are not modelled outside `Base64`: a Dafny `char` is a Unicode scalar value, so it stands for one code unit of the Basic Multilingual Plane outside U+D800-U+DFFF (see "Strings" above).
- Numbers are integers throughout. Floating point, `NaN` and `Infinity` are outside the model. `Number.toDouble` and `Number.chrW` are not modelled for that reason. `Number.toInt` is modelled on strings, the form its examples use.
- ArrayExt.StringToNumber reads only integer literals with optional sign and surrounding white space. Loose equality against a string such as `'1.0'` or `'0x10'` is therefore false in the model, where JavaScript would convert it.
- Array elements are integers or strings. `max` and `min` are modelled on integer arrays only, without the string comparison the examples also show.
- ArrayExt.NumberSort sorts by insertion. The engine's `Array.prototype.sort` algorithm is not modelled; `SortedUnique` shows that any sort satisfying the comparator gives the same result.
- `random` and `uuid` take their random draws as parameters, because `Math.random` is not modelled. `random(length)` with a non-integer `length` is not modelled.
- The `this == null` checks of `random` and `indexOf` are not modelled: a receiver is always an array here.
- ObjectExt.IsType takes `String(type)` as already computed, so the conversion of non-string type names is not modelled.
- ObjectExt.JsObject.Remove takes every truthy non-array argument to throw at `keys.forEach`. An object that carries its own callable `forEach` is not modelled.
- `Object.clone` is shallow (`Object.assign`). The model copies the property map, so nested objects are values and aliasing between them is not modelled.
- Objects hold own enumerable properties only. Inherited keys seen by `for..in` in `Object.isEmpty` are not modelled.
- DateExt.Format and DateExt.FormatSpec replace only the seven own keys of the token object (`M+`, `d+`, `h+`, `m+`, `s+`, `q+`, `S`). The `for..in` loop at src/polyfill/Date.js:44 also visits the enumerable `Object.prototype.remove` added by src/polyfill/Object.js:88-94. So in the source a format string containing `remove` has that text replaced by the last two characters of the function's source text. The model leaves such text as it is, because that source text depends on the engine.
- `String.prototype.replaceAll`, `trimCRLF`, `filename`, `extname` and `String.prototype.toInt` are not modelled. They are thin wrappers over `replace`, `substr` and `parseInt` that the rest of the model does not use.
- StringExt.FirstUpperCase maps case for ASCII letters only. Other scripts' case mappings and Unicode word boundaries are not modelled.
- `RegExp.isDomain`, `isEmail`, `isHtmlTag`, `isUrl`, `isMoney`, `isNumber` and `isRangeNumber` are not modelled. Their patterns are long alternations whose value lies in the pattern text itself, with no property beyond it to prove.
- The time zone, the clock and the parsing of date strings are not modelled. A date is given by the values its getters return.
- DateExt.GetAge takes today's date as a parameter.
- `isLeapYear(date)` with a date-string argument is not modelled, since it parses a date; only the year rule is.
- `Server.genNonDuplicateID` is not modelled. It formats a random float and the clock in base 36.
- Browser.GetUrlParam and Browser.GetCookie treat `name` as literal text. A name holding regular-expression metacharacters is not modelled.
- The other `Browser` functions (browser and version detection, `setCookie`) are not modelled. They depend on the host environment.
- Uuid.UuidPrefix treats the prefix as a string, and an empty string as the falsy case. Non-string truthy prefixes are not modelled.
- `location.search` is taken as given when `h.url` is called without a url.
- NumberExt.SplitPow returns every power of two up to the binary length of the number, whether or not that bit is set (`10` gives `[8, 4, 2, 1]`). That is what the code and its comment ("the powers of two of the digit positions") describe, so it is modelled as written.

## Findings

| source | as written | input that shows it | evidently intended | confidence | as-written member | corrected member |
|---|---|---|---|---|---|---|
| src/polyfill/Date.js:123-131 | `parseInt` of the quotient; a quotient below `1e-6` prints in exponent form and `parseInt` reads its leading digit | `diff('h', t)` where `t` is one millisecond later gives `2` | the whole intervals elapsed: `0` | not executed | DateExt.DiffOneMillisecond | DateExt.DiffAgreement |
| src/polyfill/RegExp.js:262 | the `i` flag makes `[a-z]` and `[A-Z]` both match any letter, so no capital is required | `isPassword('abcd1234', 1)` is true | a digit, a small and a capital letter, as documented at line 257 | not executed | Validators.StrongAcceptsLowerCaseOnly | Validators.IntendedStrongPassword |
| src/polyfill/Date.js:157 | the month field is `getMonth()`, which counts from zero | a date in June prints `05月` | the calendar month `06`, as `format` prints it | not executed | DateExt.ToCNDateMonthAsWritten | DateExt.ToCNDateMonth |
