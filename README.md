# jsKraken request pipeline, modelled in Dafny

jsKraken is a TypeScript client for the Twitch API, served from
`https://api.twitch.tv` (Kraken is the name of Twitch's v5 API). Every endpoint call
goes through one function, `request` in `src/request.ts`. This project
models that function's pipeline:

- **Query string.** `serialize` turns the optional query object into the
  `?key=value&...` suffix of the URL. An array value gives one pair per
  element. Keys and values go through `encodeURIComponent`.
- **Dispatch.** The XMLHttpRequest is opened asynchronously on
  `url + serialize(query)`. Each header is set with `setRequestHeader`, in
  `for...in` order. Then the body is sent.
- **Settling.** When the request completes, the status is classified by
  the first character of its decimal string. A `2` resolves the promise;
  anything else rejects it.
- **Envelope.** Either way the value is
  `{status, headers, ...tryJSON(responseText)}`:
  - `headers` is the dictionary that `getAllResponseHeaders` parses out of
    the raw header block: trim, split on runs of CR/LF, cut each line at
    its first `": "`. Only lines whose name and value are both non-empty
    are stored. When several stored lines share a name, the last one wins.
    A run of several CR/LF characters makes a single cut, so blank lines
    give no pieces of their own.
  - `tryJSON` falls back to `{message: text}` when the text is not JSON.
  - The body's keys are spread last, so they override `status` and
    `headers`.

Modules, one per file:

- `Wrappers` (`Option`).
- `JsText`: `Array.prototype.join`, `String.prototype.split` with a string
  separator, `trim`, and decimal strings of integers with their leading
  digit.
- `UriComponent`: `encodeURIComponent` over UTF-8, plus the matching
  `decodeURIComponent`, used to state that nothing is lost.
- `QueryString`: `serialize`, as a specification function plus the
  imperative loop proved equal to it.
- `ResponseHeaders`: the header parser, as a specification function plus
  the imperative loop.
- `ResponseEnvelope`: `tryJSON`, object spread and `response`.
- `Transport`: the target URL, the trace of calls made on the
  XMLHttpRequest, the status classifier and settling.
- `Examples`: worked instances.

One behaviour is easy to misstate: a present but empty query object does
not serialise to the empty string. `serialize` (`src/request.ts:19-36`)
returns `"?"` for a present empty object, and a string starting with `?`
for every present object. `QueryString.Serialize` says exactly that.

## Model

| member | source | states |
|---|---|---|
| QueryString.Serialize | src/request.ts:19-36 | An absent query gives exactly `""`. A present query gives a string starting with `?`. The empty object gives exactly `"?"`. |
| QueryString.SerializeQuery | src/request.ts:19-36 | The `for...in` loop with its nested `forEach`, pushing pairs and then joining with `&`, returns exactly `Serialize(query)`. |
| QueryString.PushEach | src/request.ts:23-26 | The `forEach` over an array value pushes one encoded `key=element` pair per element, in array order. |
| QueryString.ScalarText | src/request.ts:25-31 | Defines `String(x)` as `encodeURIComponent` applies it to a scalar: `"true"`/`"false"`, the string itself, or the decimal string of a number. What the query then carries is stated by `QueryRoundTrip`. |
| QueryString.Contribution | src/request.ts:23-33 | An array value of length N contributes N pairs. A scalar or `undefined` contributes exactly one. |
| QueryString.EntryPairs | src/request.ts:22-34 | Entry i's pairs sit in the output right after those of the entries before it, and equal its contribution: one pair `(key, String(element))` per element, in order. |
| QueryString.PairsAppend | src/request.ts:22-34 | The pairs of two consecutive runs of entries are the first run's followed by the second's. Entries never interleave. |
| QueryString.QueryRoundTrip | src/request.ts:19-36 | Reading the serialised query back gives exactly the query's (key, value) texts in order. Reading back means dropping `?`, splitting on `&`, cutting each piece at its first `=` and percent-decoding. |
| QueryString.DecodePieceOfPair | src/request.ts:25 | One `encodeURIComponent(k) + "=" + encodeURIComponent(v)` piece decodes back to `(k, v)`. |
| QueryString.DecodePiecesOfPairs | src/request.ts:22-34 | The list of encoded pieces decodes back to the list of pairs. |
| UriComponent.EncodeURIComponent | src/request.ts:25 | The output holds only unreserved characters and `%`. A string that is all unreserved is returned unchanged. |
| UriComponent.EncodedHasNoDelimiters | src/request.ts:25 | An encoded key or value never holds `&`, `=`, `?` or `#`, so pairs cannot run into each other. |
| UriComponent.DecodeEncode | src/request.ts:25 | `decodeURIComponent(encodeURIComponent(s)) == s` for every string. |
| UriComponent.Utf8RoundTrip | src/request.ts:25 | The UTF-8 bytes that `encodeURIComponent` escapes decode back to the same character. |
| UriComponent.DecodeEscapeOfEncoded | src/request.ts:25 | The `%XY` escapes of a reserved character decode back to it and take exactly the characters the encoder wrote. |
| UriComponent.AsciiEscape | src/request.ts:25 | A reserved ASCII character is written as `%` and the two upper-case hexadecimal digits of its code. |
| JsText.Join | src/request.ts:35 | Defines `Array.prototype.join`: the parts with the separator between consecutive parts, `""` for no parts. `JoinSplit` and `SplitJoin` relate it to `Split`. |
| JsText.Split | src/request.ts:51 | Defines `String.prototype.split` with a non-empty string separator: the pieces between successive occurrences, scanned left to right. Its contract says there is always at least one piece. `SplitHead`, `JoinSplit` and `SplitJoin` characterise the pieces. |
| JsText.JoinSplit | src/request.ts:51-53 | `s.split(sep).join(sep) == s`. |
| JsText.SplitHead | src/request.ts:51-52 | The first piece of a split is a prefix of the string and holds no separator. |
| JsText.SplitJoin | src/request.ts:35 | Joining parts that do not hold a one-character separator, then splitting on it, gives back the parts. |
| JsText.Trim | src/request.ts:49 | `trim` keeps a contiguous middle slice. Everything cut away is white space or a line terminator, and the result neither starts nor ends with one. |
| JsText.DecimalString | src/request.ts:85 | Defines `toString()` of an integer: a `-` exactly for negative numbers, then the decimal digits. `DigitsValueOfNatDigits` and `NatDigitsHead` characterise the digits. |
| JsText.DigitsValueOfNatDigits | src/request.ts:85 | The decimal string of a non-negative integer reads back as that integer. |
| JsText.NatDigitsHead | src/request.ts:85 | The first character of the decimal string is the leading digit. |
| JsText.LeadingDigitRange | src/request.ts:85 | The leading digit of n is d exactly when d·10^k ≤ n < (d+1)·10^k for some k. |
| ResponseHeaders.ParseHeaders | src/request.ts:46-59 | Defines `getAllResponseHeaders` on the raw block: trim, split on CR/LF runs, collect. `CollectLastWins`, `ParsedHeaderShape`, `BlankBlock` and `HeadersRoundTrip` characterise it. |
| ResponseHeaders.Collect | src/request.ts:50-57 | Defines the `forEach` fill: line by line, a line with a non-empty name and value overwrites that name's entry. `CollectLastWins` characterises it. |
| ResponseHeaders.HeaderField | src/request.ts:51-53 | Defines the cut of one line: `split(": ")`, the first piece as the name, the rest joined with `": "` as the value. `HeaderFieldCut` characterises it. |
| ResponseHeaders.GetAllResponseHeaders | src/request.ts:46-59 | The `forEach` over the lines, filling the dictionary in place, returns exactly `ParseHeaders(raw)`. |
| ResponseHeaders.SplitLines | src/request.ts:49 | `split(/[\r\n]+/)` always returns at least one piece. |
| ResponseHeaders.DropBreakRun | src/request.ts:49 | A maximal run of CR and LF of any length is consumed as a whole by one match of `[\r\n]+`. |
| ResponseHeaders.BreakRunCut | src/request.ts:49 | A break-free piece followed by a non-empty run of CR/LF characters is cut off as exactly one piece, however long the run: `SplitLines(x + run + t) == [x] + SplitLines(t)`. Blank lines yield no empty pieces. |
| ResponseHeaders.SplitLinesClean | src/request.ts:49 | No piece of `split(/[\r\n]+/)` holds a CR or an LF. |
| ResponseHeaders.HeaderFieldCut | src/request.ts:51-53 | A line is cut at its first `": "`. The name holds no `": "`. When the line has one, it is `name + ": " + value`, so the value keeps any later `": "`. When it has none, the value is empty. |
| ResponseHeaders.CollectLastWins | src/request.ts:50-57 | A name is in the dictionary exactly when some line has that name with a non-empty name and value. Its value is that of the last such line. |
| ResponseHeaders.ParsedHeaderShape | src/request.ts:46-59 | Every reported header has a non-empty name without `": "` or line breaks, and a non-empty value without line breaks. |
| ResponseHeaders.BlankBlock | src/request.ts:48-58 | An empty or all-white-space header block gives the empty dictionary. |
| ResponseHeaders.HeadersRoundTrip | src/request.ts:46-59 | Well-formed entries written as `name: value` lines joined by CR LF parse back into their dictionary, a later entry overriding an earlier one. |
| ResponseHeaders.TwoEntries | src/request.ts:46-59 | Two well-formed entries in one CR LF block parse into exactly those two headers. |
| ResponseEnvelope.TryJson | src/request.ts:38-44 | When `JSON.parse` throws, the result is an object whose only key is `message`, holding the raw text. Otherwise it is the parsed value. |
| ResponseEnvelope.IndexKeyed | src/request.ts:65 | Spreading an array-like value keys element i by the decimal string of i. Every key is such an index key, and each holds its own element. |
| ResponseEnvelope.IndexKeysCount | src/request.ts:65 | An array-like value spreads one key per element: different indices give different keys. |
| ResponseEnvelope.Spread | src/request.ts:65 | `...v` copies an object's own fields, an array's elements and a string's characters under their indices. It copies nothing for `null`, booleans and numbers. |
| ResponseEnvelope.HeadersObject | src/request.ts:64 | The `headers` field is an object with exactly the parsed header names, each holding its value as a string. |
| ResponseEnvelope.Response | src/request.ts:61-67 | The keys are `status`, `headers` and the body's. Every body key keeps the body's value. `status` and `headers` keep theirs only where the body lacks that key. |
| ResponseEnvelope.NotJsonEnvelope | src/request.ts:38-44 | A non-JSON response text gives exactly `{status, headers, message: text}`. |
| ResponseEnvelope.PrimitiveBodyEnvelope | src/request.ts:61-67 | A body that parses to `null`, a boolean or a number gives exactly `{status, headers}`. |
| ResponseEnvelope.ArrayBodyEnvelope | src/request.ts:61-67 | An array body gives `status`, `headers` and one key per element. Index keys never hide `status` or `headers`. |
| ResponseEnvelope.IndexKeysAreDigits | src/request.ts:65 | No index key equals `status` or `headers`. |
| ResponseEnvelope.ObjectBodyOverrides | src/request.ts:61-67 | A JSON object body's `status` or `headers` key replaces the transport's value. Every body key keeps the body's value. |
| Transport.Target | src/request.ts:78 | Defines the URL opened: `url + serialize(query)`. `TargetReadsBack` characterises it. |
| Transport.Calls | src/request.ts:78-82 | Defines the trace of calls on the XMLHttpRequest: `open`, one `setRequestHeader` per header entry, `send`. `CallsShape`, `CallAt` and `EachHeaderSetOnce` characterise it. |
| Transport.TargetReadsBack | src/request.ts:78 | With no query, the target is the URL. Otherwise it is the URL, then `?`, then a query string that reads back as the query's pairs in order. |
| Transport.Request | src/request.ts:76-82 | The synchronous part of `request` makes exactly this trace: `open(method, url + serialize(query), true)`, one `setRequestHeader` per entry in order, then `send(body)`. |
| Transport.CallsShape | src/request.ts:78-82 | The trace opens first, asynchronously, on the target, and sends last. Every call in between sets a header. |
| Transport.EachHeaderSetOnce | src/request.ts:79-81 | With distinct header names, each entry is set exactly once, with its own value, in its own position. No other call sets that name. |
| Transport.CallAt | src/request.ts:78-82 | Position 0 of the trace is `open`. Positions 1..N are the N header entries in order. Position N+1 is `send`. |
| Transport.CharNumber | src/request.ts:85 | `Number` of one character of a decimal string is that digit's value. For the minus sign it is NaN. |
| Transport.Resolves | src/request.ts:85 | Defines the classifier: `Number` of the first character of the status's decimal string equals 2. `ResolvesLeadingDigit`, `ResolvesBand` and `ThreeDigitStatus` characterise it. |
| Transport.ResolvesLeadingDigit | src/request.ts:85 | A status resolves exactly when it is non-negative and its leading decimal digit is 2. |
| Transport.ResolvesBand | src/request.ts:85 | A status resolves exactly when 2·10^k ≤ status < 3·10^k for some k. |
| Transport.ThreeDigitStatus | src/request.ts:85 | For 100 ≤ status ≤ 999, resolving is exactly 200 ≤ status ≤ 299. |
| Transport.Settle | src/request.ts:83-91 | The promise resolves exactly when the leading digit is 2. Resolved or rejected, it carries the response envelope. |
| Examples.ContentTypeAndRateLimit | src/request.ts:46-59 | The block `Content-Type: application/json` CR LF `X-Rate-Limit: 10` parses into exactly those two headers. |
| Examples.ArrayQueryTarget | src/request.ts:78 | The query `{name: ["A", "B"]}` makes the target `url?name=A&name=B`. |
| Examples.ReservedEscaped | src/request.ts:25 | `encodeURIComponent("a b&=")` is `a%20b%26%3D`. |
| Examples.TwoElementArray | src/request.ts:23-26 | A two-element array under one key serialises as two pairs with that key, in array order. |
| Examples.FirstDigitOnly | src/request.ts:85 | Status 0 rejects. 2, 20 and 2000 resolve, because only the first digit is read. |
| Examples.BoundaryStatuses | src/request.ts:85 | 200 and 299 resolve. 199, 300, 404 and 500 reject. |

## Left out

- `newRequest` (`src/request.ts:9-17`) picks the browser's or the `xmlhttprequest` package's XMLHttpRequest from an environment variable. The model records the calls made on the request as a trace instead.
- The asynchronous part is not modelled: the promise, `onreadystatechange`, and ready states other than 4. `Transport.Settle` is the handler's decision once `readyState == 4`.
- The network exchange is not modelled. Status, raw header block and response text are parameters.
- `JSON.parse` is a parameter of `TryJson` and `Response`: its outcome, with `None` when it throws. The JSON grammar is not modelled.
- `JSON.stringify(body)` is not modelled. `Send` carries the body value.
- Numbers are integers throughout: query values, JSON numbers and the status. Numeric query values are JavaScript safe integers (`QueryString.SafeInteger`, magnitude at most 2^53 - 1), the range where `String(n)` is the plain decimal string. `String(x)` for fractions, `NaN`, `Infinity` and integers beyond that range, which doubles round and print with lost digits or in exponent form, is not modelled.
- Strings are sequences of Unicode scalar values. Lone surrogates, for which `encodeURIComponent` throws a `URIError`, cannot occur.
- Spreading a string copies one key per scalar value. JavaScript copies one per UTF-16 code unit, which differs for characters outside the Basic Multilingual Plane.
- Arrays are dense. Holes of sparse arrays are not modelled.
- Object key order is taken as given, as the order `for...in` visits the keys. The model does not derive that order from JavaScript's rule (integer-like keys first, then insertion order). Inherited enumerable properties are not modelled.
- Only the absent query is modelled among falsy queries. Other falsy values of the untyped `query` option (`""`, `0`, `false`, `null`) give `""` too.
- `ResponseEnvelope.Response`: the result is a dictionary, so key order in the returned object is not modelled.
- A response header named `__proto__` is not modelled. The `__proto__` setter ignores a string, so JavaScript drops such a line, while `ResponseHeaders.Collect` stores it.
- `Transport.EachHeaderSetOnce` assumes distinct names, which holds for the keys of a `RequestHeaders` object. How an XMLHttpRequest combines repeated `setRequestHeader` calls is not modelled.
- `src/index.ts`, the client class that builds `RequestOptions` for each endpoint, is not part of this model. Neither are the tests against the live API in `src/__tests__/index.spec.ts`.
