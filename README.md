# Gemini API proxy: header and credential logic

A model of the request-rewriting core of a small reverse proxy (`api/index.js`).
The proxy has two routes:

- **The primary route** (`app.all('*')`) forwards every request to the Generative Language API.
  - The caller supplies one or more API keys as a comma-separated list, in `x-goog-api-key` or in a `Bearer` `authorization` header.
  - The proxy picks one key at random and forwards only that key, under the header it came in.
- **The status route** (`app.all('/status')`) mirrors the AI Studio status page. It has no credential logic.

Both routes rewrite `host`, `origin` and `referer` to name their target and remove the hop-by-hop headers. They also drop four transport-level headers from the upstream response, and forward a request body only for methods other than GET and HEAD.

The model has four modules:

- `Text` (`text.dfy`):
  - ECMAScript `trim`, with its exact white-space set;
  - `split(',')`, which always returns at least one piece;
  - ASCII `toLowerCase`;
  - `startsWith`.
- `Headers` (`headers.dfy`):
  - header maps;
  - the hop-by-hop delete loop;
  - the response-header loop.
- `Credentials` (`credentials.dfy`):
  - source precedence;
  - the `split/map(trim)/filter` key pipeline;
  - key selection.
- `Proxy` (`proxy.dfy`): both outbound header builds, the body rule and the 502 rule.

Each header build has two parts:

- a specification function stated with map comprehensions and updates (`PrimaryHeaders`, `StatusHeaders`, `RelayedHeaders`);
- a method that builds the same map the way the handler does, and is proved equal to the function:
  - the primary build has a copy loop, the credential re-insert, five field assignments and the delete loop;
  - the status build has a spread copy, three field assignments and the delete loop;
  - the response build is a single loop that fills a fresh map.

Lemmas then state what the route promises about that function.

Modelling choices:

- Inbound headers are a `map<string, string>`, as Node hands them over, with names already lower-cased.
- Upstream response headers are a sequence of `(name, value)` entries. The handler assigns `responseHeaders[key] = value` in order, so a later entry overwrites an earlier one with the same name.
- The random index `Math.floor(Math.random() * keys.length)` is a parameter `pick`. `PickInRange` requires it to be in range whenever there is a key to choose.

## Model

| member | source | states |
|---|---|---|
| Text.IsSpace | api/index.js:109 | the characters `trim` removes: the ECMAScript WhiteSpace and LineTerminator code points |
| Text.Trim | api/index.js:109 | the result has no white space at either end |
| Text.TrimIsSlice | api/index.js:109 | `trim` keeps one contiguous slice of its input and cuts off only white space before and after it |
| Text.TrimInside | api/index.js:109 | trimming never introduces a character, so a trimmed piece of a comma-split string holds no comma |
| Text.TrimPadded | api/index.js:109 | trimming undoes any white-space padding on either side of an already trimmed string |
| Text.TrimEmptyIffSpace | api/index.js:109 | a piece trims to the empty string exactly when it consists of white space only, so exactly those pieces are filtered out |
| Text.Split | api/index.js:109 | `split(',')` yields at least one piece, no piece contains the separator, and joining the pieces with the separator gives the input back |
| Text.SplitJoin | api/index.js:109 | splitting is the inverse of joining separator-free pieces |
| Text.SplitAppend | api/index.js:109 | splitting at a separator splits the text on either side of it independently |
| Text.Lower | api/index.js:118 | `toLowerCase()` on ASCII letters: same length, and each character is the lower-cased character at the same position |
| Text.StartsWith | api/index.js:101 | `startsWith`: the prefix is no longer than the string and equals its first characters |
| Text.LowerAppend | api/index.js:101 | lower-casing distributes over concatenation, so the `bearer ` test looks only at the first seven characters |
| Headers.Relayed | api/index.js:156 | a response header is relayed when its lower-cased name is none of the four forbidden names |
| Headers.WithoutHopByHop | api/index.js:43-49 | a name is kept exactly when it was present and is not one of the eight hop-by-hop names |
| Headers.StripHopByHop | api/index.js:43-49 | the delete loop removes all eight hop-by-hop names, keeps every other name with its value, and so equals `WithoutHopByHop` |
| Headers.RelayedHeaders | api/index.js:154-159 | every relayed name is outside the four forbidden names (compared lower-cased), and the name of every upstream entry with an allowed name is relayed (its value is the last entry's, `RelayedLastWins`) |
| Headers.RelayedNamesOccur | api/index.js:154-159 | no header name is invented: every relayed name occurs in the upstream response |
| Headers.RelayedLastWins | api/index.js:154-159 | a relayed name carries, unchanged, the value of its last upstream entry |
| Headers.FilterResponseHeaders | api/index.js:60-65 | the response-header loop builds exactly `RelayedHeaders` of the upstream entries |
| Headers.ForbiddenNeverRelayed | api/index.js:156 | `content-encoding`, `transfer-encoding`, `connection` and `strict-transport-security` never reach the client, in any letter case |
| Headers.HopByHopResponseRelayed | api/index.js:156 | as written, an upstream header whose lower-cased name is hop-by-hop but not one of the four forbidden names is relayed |
| Headers.KeepAliveRelayed | api/index.js:154-159 | as written, an upstream `keep-alive: timeout=5` reaches the client unchanged |
| Headers.EndToEndHeaders | api/index.js:154-159 | corrected filter: no hop-by-hop or forbidden name in any letter case is relayed, every end-to-end upstream name is, and each value agrees with the filter as written |
| Headers.EndToEndDropsHopByHop | api/index.js:154-159 | corrected filter: a hop-by-hop name never reaches the client, in any letter case |
| Headers.SecondCookieReplacesFirst | api/index.js:154-159 | as written, of two upstream `set-cookie` entries only the second reaches the client |
| Headers.RelayedValues | api/index.js:154-159 | corrected filter: every relayed name is outside the four forbidden names, and every value of every upstream entry with an allowed name is relayed under its name |
| Headers.BothCookiesRelayed | api/index.js:154-159 | corrected filter: two upstream cookies `a=1` and `b=2` both reach the client, in order |
| Headers.RelayedValuesLastIsRelayed | api/index.js:154-159 | the corrected filter relays the same names as the filter as written, and the last value of each is the one the filter as written relays |
| Headers.EndToEndLastWins | api/index.js:154-159 | corrected filter: an end-to-end name carries the value of its last upstream entry |
| Credentials.Present | api/index.js:96 | the truthiness of a header lookup: present and not the empty string |
| Credentials.IsBearer | api/index.js:101 | the lower-cased value starts with `bearer ` |
| Credentials.ExtractCredential | api/index.js:94-105 | a non-empty `x-goog-api-key` wins. Otherwise an `authorization` value whose lower-cased form starts with `bearer ` supplies everything after its first seven characters. Otherwise there is no source and no key material. Each case holds in both directions |
| Credentials.BearerRoundTrip | api/index.js:101-102 | a Bearer header with the scheme in any letter case hands over exactly the text after the scheme |
| Credentials.TrimAll | api/index.js:109 | `map(k => k.trim())`: same length, each element the trimmed piece at the same index |
| Credentials.DropEmpty | api/index.js:109 | `filter(k => k)`: every element kept is non-empty and came from the input, and every non-empty input element is kept |
| Credentials.DropEmptyCounts | api/index.js:109 | `filter(k => k)` keeps every non-empty piece exactly as often as it occurs and drops every empty one |
| Credentials.DropEmptyAppend | api/index.js:109 | `filter(k => k)` keeps order: filtering a concatenation concatenates the filtered parts |
| Credentials.TrimAllAppend | api/index.js:109 | `map(k => k.trim())` keeps order: mapping a concatenation concatenates the mapped parts |
| Credentials.ParseKeys | api/index.js:109 | every key is non-empty, comma-free and trimmed, and every comma-separated piece that does not trim to nothing appears as a key |
| Credentials.ParseKeysPiece | api/index.js:109 | a comma-free value yields its trimmed form as the only key, or no key when it is blank |
| Credentials.ParseKeysComma | api/index.js:109 | the keys of `a,b` are the keys of `a` followed by the keys of `b`, duplicates included; with `ParseKeysPiece` this fixes the key list of every raw value |
| Credentials.ParseKeysEmpty | api/index.js:109-110 | the empty value (an `authorization` of exactly `Bearer `) has no key |
| Credentials.ParseKeysPaddedKey | api/index.js:109 | one key with white space on either side parses to that key alone |
| Credentials.EmptyFirstPiece | api/index.js:109 | an empty piece in front contributes no key |
| Credentials.ParseKeysIrregular | api/index.js:109 | ` x,, y ,x` parses to `[x, y, x]`: the empty piece is dropped, uneven padding trimmed, and the repeat kept in place |
| Credentials.KeysComeFromPieces | api/index.js:109 | no key is invented: each key is the trimmed form of a comma-separated piece of the raw value |
| Credentials.ParseJoin | api/index.js:109 | round trip: a well-formed key list written with commas and any white-space padding parses back to the same list in the same order |
| Credentials.BlankKeysParseEmpty | api/index.js:109-110 | key material made only of commas and white space yields no key |
| Credentials.PickInRange | api/index.js:111 | the abstracted random index lies within the key list whenever there is a key to choose |
| Proxy.SelectedKey | api/index.js:94-114 | the handler's `selectedKey`: empty exactly when no source was found or its key list is empty, otherwise one of the keys parsed from the chosen source |
| Credentials.SelectKey | api/index.js:107-114 | the selected key is empty exactly when there is no source or the list is empty; otherwise it is one of the parsed keys |
| Credentials.EveryKeySelectable | api/index.js:111 | every index in range selects the key at that index, so every key can be chosen |
| Proxy.IsCredentialName | api/index.js:118-119 | a name is a credential name when its lower-cased form is `x-goog-api-key` or `authorization` |
| Proxy.WithoutCredentials | api/index.js:117-122 | a name is kept exactly when it was inbound and its lower-cased form is neither credential name, value unchanged |
| Proxy.WithCredential | api/index.js:124-130 | the selected key is written as `x-goog-api-key: k` or `Authorization: Bearer k` according to its source whenever a key was selected; every other entry stays with its value, and no other name is added |
| Proxy.Fallback | api/index.js:135-136 | the `or` of the handler: the inbound value when present and non-empty, else the fallback, so the result is empty only if the fallback is |
| Proxy.Retarget | api/index.js:132-136 | the names after the five assignments are the names before plus the five overridden ones |
| Proxy.PrimaryHeaders | api/index.js:116-144 | the outbound map of the primary route holds none of the eight hop-by-hop names (its other properties are the lemmas below) |
| Proxy.CopyWithoutCredentials | api/index.js:116-122 | the copy loop keeps exactly the inbound entries whose lower-cased name is neither `x-goog-api-key` nor `authorization`, values unchanged |
| Proxy.WithCredentialKeeps | api/index.js:116-130 | before retargeting, every non-credential inbound header is kept with its value and only a credential header can be added |
| Proxy.WithCredentialSlot | api/index.js:124-130 | before retargeting, the only credential header is the selected key, under the name matching its source, and only when a key was selected |
| Proxy.RetargetWritesTarget | api/index.js:132-134 | after the hop-by-hop step, `host`, `origin` and `referer` are the target hostname, origin and URL |
| Proxy.RetargetWritesForwarding | api/index.js:135-136 | after the hop-by-hop step, `x-forwarded-for` and `x-forwarded-proto` are the inbound value when non-empty, else the fallback |
| Proxy.RetargetKeeps | api/index.js:132-144 | after the field assignments and the hop-by-hop step, no hop-by-hop name is left, every other entry is kept, and only the five written names are added |
| Proxy.PrimaryCredentialSlot | api/index.js:116-130 | no inbound credential header survives, even a non-Bearer `authorization` or one that parsed to no key. At most one credential header goes upstream: `x-goog-api-key: k` or `Authorization: Bearer k` matching the source. It is present whenever a key `k` was selected |
| Proxy.PrimaryRetargets | api/index.js:132-136 | the primary output names the target API in `host`, `origin` and `referer`, and fills the forwarding headers from the inbound value or the peer address and protocol |
| Proxy.PrimaryPassesTheRest | api/index.js:116-144 | no hop-by-hop name goes upstream, every other inbound header passes unchanged, and nothing else is added |
| Proxy.PrimaryHeaderNames | api/index.js:116-144 | all five overridden names are present, and every outbound name was inbound, is an override, or is one of the two credential names |
| Proxy.GoogKeyListForwardsOneKey | api/index.js:94-130 | `x-goog-api-key: a,b,c` is forwarded as exactly the chosen key under the same name, with no authorization header of either spelling |
| Proxy.BearerKeyListForwardsOneKey | api/index.js:101-130 | `Bearer x, y` (any scheme case, any padding) is forwarded as `Authorization: Bearer` plus the chosen key alone, with no `x-goog-api-key` |
| Proxy.NoKeyNoCredential | api/index.js:94-130 | with no source, or key material that is only commas and white space, no credential header goes upstream; a blank but non-empty `x-goog-api-key` still shadows a valid Bearer header |
| Proxy.BuildPrimaryHeaders | api/index.js:94-144 | the handler's step-by-step build (copy, credential re-insert, five assignments, delete loop) yields exactly `PrimaryHeaders` |
| Proxy.StatusHeaders | api/index.js:36-49 | the outbound map of the status route holds none of the eight hop-by-hop names |
| Proxy.StatusMirrorsInbound | api/index.js:36-49 | the status output is the inbound map, credential headers included, with `host`, `origin` and `referer` naming AI Studio, hop-by-hop names removed and nothing else added |
| Proxy.BuildStatusHeaders | api/index.js:36-49 | the status handler's spread copy, three assignments and delete loop yield exactly `StatusHeaders` |
| Proxy.OutboundBody | api/index.js:150 | the request body is forwarded unchanged exactly when the method is neither `GET` nor `HEAD`; otherwise there is none |
| Proxy.OnDispatchError | api/index.js:74-79 | a failed dispatch answers 502 with a non-empty body exactly when no header has been sent yet; otherwise it sends no second response |

## Left out

- Express app creation, route registration and the iframe landing page (`api/index.js:4`, `10-26`): framework wiring and static HTML.
- The `fetch` call, the URL concatenation `${TARGET_API_URL}${req.url}`, and streaming through `Readable.fromWeb(...).pipe(res)`: network I/O. The model covers only the headers and the body decision passed to `fetch`, and the headers passed to `writeHead`. The upstream status code is passed through as is.
- `Math.random()`: the random index is the parameter `pick`.
- `console.log` and `Date` logging: output only.
- `new URL(...)` parsing: `TARGET_HOSTNAME` and `TARGET_ORIGIN` are the constants it yields.
- Array-valued Node headers (such as `set-cookie`) and the `String(rawApiKeys)` coercion: every header value is a string.
- `req.socket.remoteAddress` may be `undefined` in Node: the peer address is a string parameter.
- Text.Lower: only the letters A-Z are lower-cased. This is exact for the ASCII header names and for the `bearer ` prefix test, whose prefix is ASCII. A non-ASCII letter changed by JavaScript's full Unicode `toLowerCase` is not modelled.
- JavaScript strings are UTF-16 code units, but the model's strings are Unicode scalar values. Since `bearer ` is ASCII, `substring(7)` takes the same text either way.
- The insertion order of object keys, which decides the order headers are sent in: maps have no order.
- The catch block's logging and the `res.headersSent` state: the latter is the parameter of `Proxy.OnDispatchError`.

## Findings

| source | as written | input that shows it | evidently intended | confidence | as-written member | corrected member |
|---|---|---|---|---|---|---|
| api/index.js:62, api/index.js:156 | the response filter drops only `content-encoding`, `transfer-encoding`, `connection` and `strict-transport-security` | an upstream response carrying `keep-alive: timeout=5` (or `upgrade`, `te`, `trailers`, `proxy-authenticate`) relays that header to the client | no hop-by-hop header (section 6.1 of RFC 7230) reaches the client, as the request side already ensures with its eight-name list | medium; not executed | Headers.KeepAliveRelayed | Headers.EndToEndHeaders |
| api/index.js:63, api/index.js:157 | the response filter assigns `responseHeaders[key] = value` for each entry, so a repeated name keeps only its last value; `Headers.entries()` repeats exactly `set-cookie` | an upstream response setting two cookies, `set-cookie: a=1` and `set-cookie: b=2`, relays only `b=2` | every cookie the upstream sets reaches the client, as every other relayed header does | medium; not executed | Headers.SecondCookieReplacesFirst | Headers.RelayedValues |
