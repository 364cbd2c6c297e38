# MySQL JSON path extraction and unquoting, in Dafny

A model of two operations on the JSON value type of TiKV's MySQL codec (`src/util/codec/mysql/json/functions.rs`):

- **Path extraction.** `extract_json` walks a JSON tree along the legs of a path expression and returns every matched sub-value, in traversal order and with duplicates. A leg is an array index or `[*]`, an object key or `.*`, or the recursive `**`. `Json::extract` concatenates the matches of several path expressions. It returns `None` when nothing matched. It returns the match bare when there was one path expression and one match. Otherwise it returns all matches wrapped in one array.
- **Unquoting.** `unquote_string` scans a JSON string left to right. It decodes the escape sequences of the JSON_UNQUOTE table in the MySQL 5.7 reference manual, decodes `\uXXXX` through `decode_escaped_unicode`, and drops the backslash of any other escape. It fails for a backslash with nothing after it, and for a `\u` that is not followed by four characters that decode to a character. `Json::unquote` applies it to string values and renders every other value as text.

Modules, one per file:

- `Wrappers` (`wrappers.dfy`): `Option` and `Result`.
- `Seqs` (`seqs.dfy`): `Flatten`, the concatenation that every `ret.append(..)` loop performs.
- `JsonValue` (`json.dfy`): the `Json` datatype. `Json::None` (JSON null) is called `Null` here. An object is its entries in B-tree iteration order. `Valid` says that the keys of every object are strictly ascending, which makes them unique. `Descendants` lists a tree's nodes in depth-first pre-order.
- `PathExpr` (`path.dfy`): path legs. The wildcard index is its own constructor `AnyIndex`. The wildcard key is the string `"*"`.
- `Extraction` (`extract.dfy`): `ExtractJson`, the recursive matcher. `Extract`, the loop of `Json::extract`, is proved against `AllMatches`.
- `Unquoting` (`unquote.dfy`): `DecodeEscapedUnicode` and `Unescaped`, the recursive specification of the scan. `UnquoteString` is the index loop, proved equal to `Unescaped`. `Unquote` is the dispatch on the value's type.
- `Scenarios` (`scenarios.dfy`): the unit-test cases of the source file, stated over the model.

The `\u` check in the source works on bytes. It succeeds only when the next four bytes are valid UTF-8 and parse as hex. Those four bytes are then four ASCII characters. Any other byte pattern fails, whether by length, by UTF-8 or by hex parsing. So a model over characters accepts and rejects exactly the same strings. Rust's `u32::from_str_radix` accepts one leading `+`, so `\u+abc` decodes to U+0ABC. The model keeps that. Four hex digits are at most 0xFFFF, so `char::from_u32` can only fail on a surrogate.

The code returns `None` for an empty list of path expressions (the test at functions.rs:180). The model follows the code and has no precondition here.

## Model

| member | source | states |
|---|---|---|
| `JsonValue.KeyIndex` | src/util/codec/mysql/json/functions.rs:143-144 | `contains_key` with `map[key]`: the index of the first entry with the key. `None` exactly when no entry has that key. |
| `JsonValue.KeyIndexIsLookup` | src/util/codec/mysql/json/functions.rs:143-144 | The lookup finds a key exactly when the map that the entries stand for holds it, and returns that map's value for it. |
| `JsonValue.AsMapSize` | src/util/codec/mysql/json/functions.rs:140-141 | Entries with strictly ascending keys form a map with one key per entry, so iterating over the keys visits each entry once. |
| `Extraction.ExtractEmptyLegs` | src/util/codec/mysql/json/functions.rs:113-115 | With no legs left, the only match is the node itself. |
| `Extraction.ExtractIndexOnArray` | src/util/codec/mysql/json/functions.rs:121-129 | On an array, `[*]` gives the concatenation, in element order, of the rest applied to each element. An index in range gives the rest applied to that element. Any other index, negative ones included, gives nothing. |
| `Extraction.ExtractIndexAutowrap` | src/util/codec/mysql/json/functions.rs:130-134 | On a non-array, `[*]` and `[0]` apply the rest to the node itself. Any other index gives nothing. |
| `Extraction.ExtractKey` | src/util/codec/mysql/json/functions.rs:137-147 | A key leg never matches a non-object. On an object, `.*` concatenates the rest applied to each value in key order. A present key applies the rest to its value in the map. An absent key gives nothing. |
| `Extraction.ExtractWildcardAlone` | src/util/codec/mysql/json/functions.rs:121-145 | `$[*]` on an array returns exactly its elements. `$.*` on an object returns exactly its values. On a well-formed object that is one value per distinct key. |
| `Extraction.ExtractDoubleAsterisk` | src/util/codec/mysql/json/functions.rs:148-163 | `**` gives the rest applied at the node, followed by the full leg list, `**` included, replayed at each child in order. |
| `Extraction.ExtractDoubleAsteriskPrefix` | src/util/codec/mysql/json/functions.rs:149-161 | The matches of the rest at the node are a prefix of the `**` result. For a scalar or null they are the whole result. |
| `Extraction.DoubleAsteriskIsEveryDescendant` | src/util/codec/mysql/json/functions.rs:148-163 | `[**] + rest` equals `rest` applied to the node and then to every descendant, in depth-first pre-order. This is an independent reference traversal. |
| `Extraction.MatchIsSubtree` | src/util/codec/mysql/json/functions.rs:112-166 | Every match is a sub-tree of the document. Extraction selects values and never builds new ones. |
| `Extraction.MatchesValid` | src/util/codec/mysql/json/functions.rs:112-166 | Every match taken from a well-formed document is itself well-formed. |
| `Extraction.AsteriskFreeMatchesAtMostOne` | src/util/codec/mysql/json/functions.rs:116-147 | A path without `[*]`, `.*` or `**` matches at most one value. |
| `Extraction.AllMatchesAppend` | src/util/codec/mysql/json/functions.rs:36-39 | The matches of two lists of path expressions, one after the other, are the matches of the first list followed by those of the second. |
| `Extraction.Extract` | src/util/codec/mysql/json/functions.rs:35-49 | `None` exactly when no expression matched, zero expressions included. With one expression and exactly one match, that match comes back bare. Otherwise every match comes back, in order, wrapped in one array. Results from a well-formed document are well-formed. |
| `Extraction.WildcardSingleMatch` | src/util/codec/mysql/json/functions.rs:43-46 | `$[*]` on `[true]` has an asterisk and exactly one match, so `Extract` returns `true` bare. The intended rule returns `[true]`. |
| `Extraction.ExtractIntended` | src/util/codec/mysql/json/functions.rs:40-48 | The corrected autowrap rule: `None` exactly when nothing matched. |
| `Extraction.ExtractIntendedShape` | src/util/codec/mysql/json/functions.rs:43-47 | Under the corrected rule, an expression with an asterisk, or several expressions, always give an array. One asterisk-free expression that matches always gives its single match bare. |
| `Unquoting.FromStrRadix16` | src/util/codec/mysql/json/functions.rs:107 | `u32::from_str_radix(_, 16)` accepts only a value that fits in 32 bits. |
| `Unquoting.DecodeEscapedUnicode` | src/util/codec/mysql/json/functions.rs:106-109 | It can fail only with the invalid-unicode kind. |
| `Unquoting.DecodeHex4` | src/util/codec/mysql/json/functions.rs:106-109 | Four hex digits decode to their code point. A surrogate code point is refused. |
| `Unquoting.DecodeHexDigits` | src/util/codec/mysql/json/functions.rs:106-109 | Any four hex digits of either case, with no sign, decode to the character whose code point they spell, most significant digit first. |
| `Unquoting.UnicodeEscapeIsBmp` | src/util/codec/mysql/json/functions.rs:80-88 | A four-character `\u` payload that decodes gives a character below U+10000. |
| `Unquoting.SignedHexDigits` | src/util/codec/mysql/json/functions.rs:107 | A leading `+` is accepted, so `+abc` is U+0ABC and `\u+abc!` unquotes to U+0ABC followed by `!`. A leading `-` is refused. |
| `Unquoting.UnquoteString` | src/util/codec/mysql/json/functions.rs:62-104 | The scanning loop returns exactly `Unescaped(s)`, the recursive specification of the scan. |
| `Unquoting.Unquote` | src/util/codec/mysql/json/functions.rs:51-56 | A string value is unescaped. Any other value is rendered by the serializer and never fails. |
| `Unquoting.UnescapedNoBackslash` | src/util/codec/mysql/json/functions.rs:99-101 | Text without a backslash unquotes to itself. |
| `Unquoting.UnescapedConcat` | src/util/codec/mysql/json/functions.rs:65-102 | Once a prefix has unquoted, the rest of the text is decoded independently, and its output or error follows the prefix's output. |
| `Unquoting.SimpleEscapeDecoded` | src/util/codec/mysql/json/functions.rs:71-78 | Where the scan meets `\c` with `c` other than `u`, it emits the table entry for `c`, or `c` itself, and resumes two characters later. |
| `Unquoting.UnicodeEscapeDecoded` | src/util/codec/mysql/json/functions.rs:79-93 | Where the scan meets a `\u` whose next four characters decode, it emits that one character and resumes exactly four characters later. |
| `Unquoting.BadUnicodeEscape` | src/util/codec/mysql/json/functions.rs:79-88 | Where the scan meets `\u` followed by fewer than four characters, or by four that do not decode, the result is the invalid-unicode error. |
| `Unquoting.InvalidUnicodeIff` | src/util/codec/mysql/json/functions.rs:79-88 | Unquoting fails with invalid-unicode exactly when the scan meets such a bad `\u` escape. |
| `Unquoting.IncompleteEscapeIff` | src/util/codec/mysql/json/functions.rs:66-70 | Unquoting fails with incomplete-escape exactly when the scan meets a backslash as the last character. |
| `Unquoting.UnescapedNoLonger` | src/util/codec/mysql/json/functions.rs:63 | The unquoted text never has more characters than the input. |
| `Unquoting.EscapeRoundTrip` | src/util/codec/mysql/json/functions.rs:71-78 | Escaping a text with the table's short escapes and then unquoting it gives the text back. |
| `Unquoting.UnicodeEscapeRoundTrip` | src/util/codec/mysql/json/functions.rs:79-93 | Every character below U+10000 written as `\u` with four hex digits unquotes back to itself. |
| `Scenarios.ExtractIndexCases` | src/util/codec/mysql/json/functions.rs:179-205 | The index test cases: no expression, `[0]`, `[*]`, an index out of range, and `[0]` on a scalar. |
| `Scenarios.ExtractKeyCases` | src/util/codec/mysql/json/functions.rs:206-224 | The key test cases: present key, `.*` in key order, absent key. |
| `Scenarios.ExtractDoubleAsteriskLeaf` | src/util/codec/mysql/json/functions.rs:226-231 | `$**.c` on a scalar matches nothing. |
| `Scenarios.ExtractDoubleAsteriskNestedObject` | src/util/codec/mysql/json/functions.rs:232-237 | `$**.c` finds the one `c` inside a nested object. |
| `Scenarios.ExtractDoubleAsteriskNestedArray` | src/util/codec/mysql/json/functions.rs:238-243 | `$**.c` finds the one `c` inside an array element. |
| `Scenarios.ExtractIndexOutcomes` | src/util/codec/mysql/json/functions.rs:179-205 | `extract` itself returns `None`, `true`, `[true, 2017]`, `None` and `6.18` for the index test cases. |
| `Scenarios.ExtractKeyOutcomes` | src/util/codec/mysql/json/functions.rs:206-243 | `extract` itself returns `false`, `["a1", 20.08, false]` and `None` for the key cases, and `None`, `false`, `false` for the `**` cases. |
| `Scenarios.WildcardSingleMatchOutcome` | src/util/codec/mysql/json/functions.rs:43-46 | `extract` returns `true` bare for `$[*]` on `[true]`, while the corrected rule returns `[true]`. |
| `Scenarios.DecodeCases` | src/util/codec/mysql/json/functions.rs:268-286 | The five `decode_escaped_unicode` test vectors. |
| `Scenarios.UnquoteShortEscapeCases` | src/util/codec/mysql/json/functions.rs:292-300 | `\b \f \n \r \t \\` decode by the table, and `\a` gives `a`. |
| `Scenarios.UnquoteUnicodeCases` | src/util/codec/mysql/json/functions.rs:298-299 | `\u597d` and `0\u597d0` unquote to 好 and 0好0. |
| `Scenarios.UnquoteOtherCases` | src/util/codec/mysql/json/functions.rs:301-304 | `[` is copied, `\` alone is incomplete-escape, and `\u59` is invalid-unicode. |

## Left out

- `Json::to_string`, the serializer for non-string values (functions.rs:54), is not part of this model. `Unquote` takes it as the function parameter `render`.
- The path-expression parser and `PathExpression.flags` are not part of this model. Extraction reads only the legs. The Rust type of the index in `PathLeg::Index` and the numeric value of `PATH_EXPR_ARRAY_INDEX_ASTERISK` are not visible. The wildcard is therefore its own constructor, and the index is an unbounded integer. A negative index never matches, as `i as usize` of a negative value would be out of range.
- `f64` payloads are kept as an opaque bit pattern, because nothing here computes on them.
- JSON text parsing, which the tests use to build documents, is left out. So are the error messages built by `box_err!`. The two failure kinds are the constructors of `UnquoteError`.
- `try!(str::from_utf8(..))` at functions.rs:84 raises a UTF-8 error, a different error type in Rust. The model reports every failing `\u` escape as `InvalidUnicode`.
- Allocation, cloning and capacity hints (`with_capacity`, `clone`, `remove(0)`) are left out. Values are immutable trees, so a match cannot alias the document it came from.
- Recursion depth and result size are unbounded, as in the source. Stack exhaustion is not modelled.

## Findings

| source | as written | input that shows it | evidently intended | confidence | as-written member | corrected member |
|---|---|---|---|---|---|---|
| src/util/codec/mysql/json/functions.rs:43-47 | With one expression and exactly one match, the match is returned bare, even when the path contains an asterisk. The comment at lines 44-45 claims that such a path never yields exactly one match. | document `[true]`, one path `$[*]` (legs `[Index(AnyIndex)]`): `extract` returns `true` | A path that can match several values always returns an array, here `[true]`, as MySQL's JSON_EXTRACT does for wildcard paths | medium, not executed | `Extraction.WildcardSingleMatch` | `Extraction.ExtractIntended` |
