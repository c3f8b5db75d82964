# HTTP client wrapper and post-build clean-up, modelled in Dafny

This project models two pieces of an analytics web application.

**The HTTP client wrapper** (`src/lib/fetch.ts`). `request` calls `fetch` with
`cache: 'no-cache'`, so every call revalidates with the server before a cached response
is used. It sends JSON `Accept` and `Content-Type` headers, which the caller's headers
override key by key. It then resolves to the response's `ok` flag, its status and its
body parsed as JSON. `httpGet` and `httpDelete` build the URL with `buildPath` and send no
body. `httpPost` and `httpPut` go through `httpSend`, which does one of two things:

- By default, it sends the parameters as a JSON body.
- When the environment variable `NEXT_PUBLIC_EDGE_COMPAT` is truthy, it sends no body.
  Every parameter whose value is not `undefined` becomes a query pair instead. Objects,
  arrays and `null` are written as JSON text and other values with `String(value)`. The
  pairs are serialized by `URLSearchParams` and appended to the path after `?`, or after
  `&` when the path already holds a `?`.

**The post-build script** (`scripts/postbuild.js`). When `.next/standalone` exists, it
removes the `sharp` and `typescript` packages from its `node_modules` if present. It then
deletes the Prisma runtime's base64 WebAssembly engines for MySQL, SQLite, SQL Server and
CockroachDB, and keeps PostgreSQL's.

The model is split into these modules:

- `Fetch` (fetch.dfy) covers `request`, the verb wrappers and `httpSend`. `HttpSend` is a
  method whose loop fills a `URLSearchParams` object, proved equal to the specification
  function `Send`.
- `FormUrlencoded` (form_urlencoded.dfy) implements the application/x-www-form-urlencoded
  format of the WHATWG URL Standard:
  - the serializer of section 5.2, which `URLSearchParams.toString()` uses;
  - the parser of section 5.1, which is what a server applies to the query;
  - percent-decoding (section 1.3);
  - `URLSearchParams` as a class whose pair list `append` extends.

  The main theorem is that parsing the serialized list gives the list back.
- `Utf8` (utf8.dfy) holds the UTF-8 encoder and the replacing decoder of the WHATWG
  Encoding Standard, with the round trip proved.
- `JsValues` (js_values.dfy) holds JavaScript values, `typeof` and `String(value)`.
- `Postbuild` (postbuild.dfy) models the file system as a class over a map from paths to
  files and directories. `Run` is a method proved against the specification function
  `Cleaned`, including the runs that stop on an exception. `PruneEngines`, the loop over
  the Prisma runtime directory, is proved against `WithoutEngines`.
- `Wrappers` (wrappers.dfy) holds `Option` and `Result`.

The collaborators the wrapper calls but does not define are fields of `Fetch.Host`, left
uninterpreted:

- `JSON.stringify`;
- `buildPath` from `@/lib/url`;
- the environment flag.

The JSON parser behind `res.json()` is a parameter of `Receive`.

## Model

| member | source | states |
|---|---|---|
| Fetch.MergeHeaders | src/lib/fetch.ts:27-31 | The headers are the caller's keys plus `Accept` and `Content-Type`. Every caller value wins, and each default is `application/json` unless the caller sets it. |
| Fetch.Request | src/lib/fetch.ts:18-32 | The `fetch` call carries the verb, URL and body as given, `cache: 'no-cache'` and the merged headers. |
| Fetch.Receive | src/lib/fetch.ts:33-41 | A network error rejects. A body that is not JSON rejects. Otherwise the result holds the status and the parsed body, and `ok` holds exactly when the status is 200 to 299. |
| Fetch.HttpGet | src/lib/fetch.ts:44-46 | A `GET` with no body, to the URL `buildPath(path, params)`, with the merged headers. |
| Fetch.HttpDelete | src/lib/fetch.ts:48-50 | A `DELETE` with no body, to the URL `buildPath(path, params)`, with the merged headers. |
| Fetch.HttpSend | src/lib/fetch.ts:60-83 | The loop over the parameters builds exactly the query list of the specification. The call made equals `Send` for every flag value. |
| Fetch.HttpPost | src/lib/fetch.ts:52-54 | Equals `Send` with the verb `POST`. |
| Fetch.HttpPut | src/lib/fetch.ts:56-58 | Equals `Send` with the verb `PUT`. |
| Fetch.QueryEntriesExact | src/lib/fetch.ts:65-73 | There is one query pair per parameter that is not `undefined`, in parameter order. Each holds its key and either the JSON text (when `typeof` is "object") or `String(value)`. |
| Fetch.SendCompat | src/lib/fetch.ts:62-79 | With the flag truthy there is no body. The URL is the path, the separator and the serialized pairs. The separator is `&` exactly when the path contains `?`, and `?` otherwise. |
| Fetch.SendBody | src/lib/fetch.ts:82 | With the flag unset or empty, the URL is the path unchanged and the body is the JSON text of the parameter object. |
| Fetch.CompatQueryDelivered | src/lib/fetch.ts:63-79 | For a path without `?`, parsing the text after the URL's first `?` gives back exactly the query pairs, in order. |
| Fetch.CompatQueryAppended | src/lib/fetch.ts:76-77 | For a path that already has a query, parsing the text after the URL's first `?` gives the path's own pairs followed by exactly the parameters' pairs. |
| FormUrlencoded.SearchParams.constructor | src/lib/fetch.ts:63 | A new `URLSearchParams` holds no pairs. |
| FormUrlencoded.SearchParams.Append | src/lib/fetch.ts:68-70 | `append` adds the pair at the end and changes nothing else. |
| FormUrlencoded.SearchParams.ToString | src/lib/fetch.ts:77 | Parsing the serialized text gives back the pair list, pair for pair and in order. |
| FormUrlencoded.ParseSerialize | src/lib/fetch.ts:77 | Parsing the UTF-8 bytes of the serialized list gives back the list, for every list of names and values made of Unicode scalar values. |
| FormUrlencoded.EncodedTextBytes | src/lib/fetch.ts:77 | An encoded name or value contains no `&` and no `=`, so it cannot split a pair. |
| FormUrlencoded.ParseJoin | src/lib/fetch.ts:76-77 | Two query texts joined by `&` hold the pairs of the first, then those of the second. |
| Utf8.DecodeEncode | src/lib/fetch.ts:77 | Every string of Unicode scalar values survives UTF-8 encoding and decoding, including the non-ASCII text `URLSearchParams` encodes. |
| JsValues.NumberText | src/lib/fetch.ts:70 | `String(n)` of an integer is an optional minus sign (present exactly when `n` is negative) and the canonical decimal digits of the magnitude, which read back as the magnitude. |
| Postbuild.ContainsAt | scripts/postbuild.js:45-48 | `includes` is true exactly when the part occurs at some position of the file name. |
| Postbuild.IsUnusedEngine | scripts/postbuild.js:44-49 | True exactly when one of mysql, sqlite, sqlserver or cockroachdb occurs at some position of the name and the name ends with .wasm-base64.js or .wasm-base64.mjs. |
| Postbuild.MysqlEngineGoes | scripts/postbuild.js:44-49 | A MySQL engine in base64 WebAssembly form matches the deletion test. |
| Postbuild.PostgresEngineStays | scripts/postbuild.js:43-49 | The PostgreSQL engine in base64 WebAssembly form does not match the deletion test: its name contains none of the four database names. |
| Postbuild.WithoutTree | scripts/postbuild.js:21 | The recursive, forced removal keeps exactly the entries not inside the removed path, unchanged. |
| Postbuild.Cleaned | scripts/postbuild.js:12-56 | Without `.next/standalone` nothing changes. Otherwise an entry disappears exactly when it lies inside a present `sharp` or `typescript` package, or is an unused engine file directly in the runtime directory. Every other entry is unchanged. |
| Postbuild.FileSystem.Exists | scripts/postbuild.js:14 | `existsSync` is true exactly when the path is present. |
| Postbuild.FileSystem.RemoveTree | scripts/postbuild.js:21 | `rmSync` leaves `WithoutTree` of the previous state and keeps the file system well formed. On an absent path it changes nothing. |
| Postbuild.RemoveAbsentTree | scripts/postbuild.js:21 | In a well-formed file system, the forced removal of an absent path removes nothing, because every ancestor of an entry is present. |
| Postbuild.FileSystem.Unlink | scripts/postbuild.js:52 | `unlinkSync` succeeds exactly on a file and removes only it. On a directory or a missing path it throws and changes nothing. |
| Postbuild.FileSystem.ReadDir | scripts/postbuild.js:41 | `readdirSync` succeeds exactly on a directory, and lists exactly the names of its direct entries. |
| Postbuild.PruneEngines | scripts/postbuild.js:32-54 | Step 3, for any listing order, succeeds exactly when no unused engine name is a directory and the runtime path is not a file. On success the state is the complete step 3. A run that stops part way lies between the old state and the complete step. |
| Postbuild.Run | scripts/postbuild.js:6-57 | The run completes exactly when no file-system call throws, and then leaves `Cleaned` of the old state. Every run deletes only entries that `Cleaned` deletes, never alters a kept entry, and keeps the file system well formed. |

## Left out

- Telemetry (`sendTelemetry`, `DISABLE_TELEMETRY`), `dotenv` and the console messages are not modelled: they do not affect the requests or the file system.
- The network and promises are not modelled. `Request` returns the `fetch` call it would make, and `Receive` takes how that call settles as an argument.
- The internals of `JSON.stringify`, of `buildPath` and of the JSON parser behind `res.json()` are not modelled. They are uninterpreted functions, so every property holds for any behaviour of theirs.
- `JSON.stringify` throwing, for example on a cycle or a BigInt, is not modelled.
- Functions, symbols and BigInt values are not modelled. The parameter objects hold `undefined`, `null`, booleans, numbers, strings, arrays and plain objects.
- JsValues.NumberText: numbers are integers, so the fractional and exponent forms `String` gives to other numbers (and to integers from 1e21 up) are not modelled.
- Fetch.MergeHeaders: header names that differ only in letter case are kept as separate keys. Object spread does the same, and the combining `fetch` does later is not part of this code.
- The `error` field of `FetchResponse` is not modelled, because `request` never sets it.
- Default arguments (`params = {}`, `headers = {}`) are not modelled: the model always passes both explicitly.
- The parameters are an ordered list of entries, the order `Object.entries` gives.
- Fetch.CompatQueryAppended: a fragment (`#...`) in the path is not modelled. `QueryOf` takes everything after the first `?` as the query. For a path with `#`, part of what `QueryOf` returns is fragment, which `fetch` does not send.
- Fetch.CompatQueryDelivered: a fragment in the path is not modelled either. For a path with no `?` and a `#`, such as `/x#top`, the URL becomes `/x#top?a=1`. The pairs then sit in the fragment, and no server receives them.
- FormUrlencoded.ParseSerialize: strings are sequences of Unicode scalar values, so lone surrogates are not modelled. A JavaScript string is a sequence of UTF-16 code units and may hold one. `URLSearchParams` turns it into U+FFFD, and the server then reads U+FFFD instead of the original text.
- Utf8.DecodeEncode: for the same reason, the round trip covers only strings of Unicode scalar values. A lone surrogate is not a scalar value, and its UTF-8 round trip gives U+FFFD.
- Postbuild.FileSystem: `Valid()`, well-formedness, is an invariant every method preserves. Beyond `RemoveAbsentTree`, no contract depends on it.
- Postbuild.FileSystem: symbolic links, permissions and I/O errors other than the two the script can meet are not modelled. Those two are `unlinkSync` on a directory and `readdirSync` on a file.
- Postbuild.Run: the order in which `readdirSync` lists names is not fixed. The loop takes the names in any order, and every contract holds for every order.
- The script's top-level `run()` call is not modelled. The error a rejected promise reports is `ok == false` in `Run`.
- src/app/api/debug-poc/route.ts is not part of this model: it is a server-side diagnostic endpoint that uses neither the wrapper nor the script.
- `NEXT_PUBLIC_EDGE_COMPAT` is read with JavaScript truthiness. Any non-empty value, including the string "false", turns the query-string mode on, and the model keeps that behaviour.
