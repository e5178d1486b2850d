# RestSource: a verified model of a CakePHP REST datasource

`RestSource` lets a CakePHP model persist to a remote REST API instead of a
database. Each persistence call (`query`, `create`, `read`, `update`,
`delete`) becomes one HTTP request: a verb, a URL built from the configured
`host`, the model's `remoteResource` and the call's arguments, an optional
body, and the datasource's raw header lines. Before any request is sent, the
`X-Authorization` guard (`applyConfiguration`) checks the header lines. The
client's answer, or an exception, is then turned into what the caller gets
back.

The model has these modules:

- `Wrappers`: `Option` and `Result`.
- `SeqFacts`: two facts about sequence concatenation that the proofs use.
- `PhpValues`: PHP values. Arrays are insertion-ordered string-keyed maps. The module also holds `empty()`, `$a[k]` and string conversion.
- `PhpStrings`: decimal text of integers, `current(explode(':', h))`, `trim(s, '/')` and joining.
- `OrderedMap`: PHP array assignment, `unset` and `array_combine`, with their laws.
- `UrlEncoding`: `urlencode` and a decoder, with the round trip proved.
- `QueryString`: `http_build_query`.
- `Headers`: the `X-Authorization` guard.
- `Datasource`: the request built by every entry point and the rule for the reply. It contains the class `RestSource`, whose `headers` field is the mutable header list.

The HTTP client (`\Nodes\Curl`) is a parameter `send: Request -> Outcome` that
either returns a response or throws. Every entry point also returns `sent`:
the request handed to the client, or `None` when the client was never called.
`DS` is `/`, the directory separator on a Unix host.

Behaviours of the code worth noting:

- `read` keeps the conditions in insertion order and does not sort the keys. When the caller uses none of `limit`, `offset`, `order` and `page` as a condition key, the caller's conditions come first, followed by whichever of those four paging values are non-empty, in that order (`ReadConditionsOrder`). A paging value given under a key the caller already used overwrites that condition where it stands.
- In `read`, the header guard runs inside the `try` block. A missing `X-Authorization` header therefore makes `read` return `array()` without calling the client. It does not throw. The other four entry points do throw.
- `delete` with a null id builds `/<resource>/`. It does not reject the id.
- No entry point checks for an empty resource name.
- `create`, `update` and `delete` return the client's response without looking at `success`.

## Model

| member | source | states |
|---|---|---|
| `Headers.HasApiTokenIff` | Model/Datasource/RestSource.php:272-273 | The guard passes exactly when some line is `X-Authorization` alone or starts with `X-Authorization:`. |
| `Headers.HeaderNameIs` | Model/Datasource/RestSource.php:272 | For a name without a colon, the text before a line's first `:` equals the name exactly when the line is the name alone or starts with the name and a colon. |
| `PhpStrings.BeforeFirst` | Model/Datasource/RestSource.php:272 | `current(explode(':', h))` is a prefix of `h` with no `:` in it, and it is either all of `h` or followed by a `:`. |
| `Datasource.ApplyConfiguration` | Model/Datasource/RestSource.php:271-277 | Fails with the "No API token" error exactly when no header line is named `X-Authorization`. Otherwise it hands the header list to the client unchanged. |
| `Datasource.RestSource.Query` | Model/Datasource/RestSource.php:35-78 | Throws "missing information" on empty `pass`. A non-array `pass[0]` is taken as the action. An empty action throws "missing action key". Then the guard runs. Otherwise the verb goes to `host/<resource>/<action>`. The body is `pass[1]` for put/post when it is given, and null otherwise. An exception from the client becomes `array()`. |
| `Datasource.Caught` | Model/Datasource/RestSource.php:213-218 | The reply is `array()` exactly when the client threw; otherwise it is the client's response, unchanged. |
| `Datasource.CreateTarget` | Model/Datasource/RestSource.php:91-96 | PUT to `host/<resource>/<id>` exactly when the payload's `id` is non-empty. When the `id` is empty, the target is exactly POST to `host/<resource>`. |
| `Datasource.CreateBody` | Model/Datasource/RestSource.php:98-101 | The body has distinct keys. It is empty exactly when the field list or the value list is empty. When both lists are non-empty, its keys are exactly the field names, and each field holds the value paired with its last occurrence. |
| `Datasource.CreateIdBranchUnreachable` | Model/Datasource/RestSource.php:93-98 | With the undefined (null) `$data`, the target is always POST `host/<resource>`. The payload `['id' => '7']` would have given PUT `host/<resource>/7`. |
| `Datasource.RestSource.Create` | Model/Datasource/RestSource.php:88-124 | As written: once the guard passes, always POST to `host/<resource>`, with the combined field/value body. |
| `Datasource.RestSource.CreateCorrected` | Model/Datasource/RestSource.php:91-101 | With the payload built first, the verb and URL are decided by the payload's `id` (see `CreateTarget`). |
| `OrderedMap.Combine` | Model/Datasource/RestSource.php:100 | `array_combine` gives distinct keys, and its keys are exactly the field names. |
| `OrderedMap.CombineLastWins` | Model/Datasource/RestSource.php:100 | A repeated field name takes the value paired with its last occurrence. |
| `OrderedMap.CombineAllLastWins` | Model/Datasource/RestSource.php:100 | Every field name, at the position of its last occurrence, is looked up to the value at that position. |
| `OrderedMap.CombineFresh` | Model/Datasource/RestSource.php:100 | A field name not seen before is appended after the entries of the earlier names, with its value. |
| `OrderedMap.CombineDistinct` | Model/Datasource/RestSource.php:208 | With distinct field names, the body has one entry per field, and entry `i` is field `i` paired with value `i`. |
| `OrderedMap.Set` | Model/Datasource/RestSource.php:152 | Assignment stores the value under the key and leaves every other key alone. An existing key keeps its place and a new key is appended. |
| `OrderedMap.Unset` | Model/Datasource/RestSource.php:144 | `unset` removes exactly the key's entry. The others keep their values and their order. |
| `OrderedMap.Get` | Model/Datasource/RestSource.php:142 | A lookup finds a value exactly when the key is among the keys, and the value is the one stored in that key's entry. |
| `PhpValues.Lookup` | Model/Datasource/RestSource.php:142 | A missing key reads as null. A present key reads as the value stored under it, and a non-null read always comes from a present key. |
| `Datasource.AssignNonEmpty` | Model/Datasource/RestSource.php:151-153 | `if (!empty($v)) $m[k] = $v`: a non-empty value is stored under the key and an empty one changes nothing. Other keys and the existing order are kept. |
| `Datasource.CopyNonEmptyLast` | Model/Datasource/RestSource.php:151-165 | After the paging assignments, a key holds the last non-empty value assigned to it. |
| `Datasource.CopyNonEmptyOther` | Model/Datasource/RestSource.php:151-165 | A key that none of the assignments names keeps its value. |
| `Datasource.CopyNonEmptyShape` | Model/Datasource/RestSource.php:151-165 | The assignments keep keys distinct and keep the existing entries in front. The result is empty exactly when the map was empty and nothing was assigned. |
| `Datasource.WithoutIdFacts` | Model/Datasource/RestSource.php:142-145 | A non-empty `id` is removed from the conditions and nothing else changes. An empty `id` leaves the conditions as they were. |
| `Datasource.ReadConditionsId` | Model/Datasource/RestSource.php:142-145 | A non-empty `conditions.id` is not among the serialised conditions, so it never reaches the query string. An empty one stays. |
| `Datasource.ReadConditionsPaging` | Model/Datasource/RestSource.php:151-165 | Each non-empty top-level `limit`, `offset`, `order` and `page` appears in the conditions under its own key. |
| `Datasource.ReadConditionsOthers` | Model/Datasource/RestSource.php:142-165 | Every other condition keeps the value the caller gave it. |
| `Datasource.ReadConditionsShape` | Model/Datasource/RestSource.php:142-169 | The caller's remaining conditions come first, in their order. The conditions are empty, and so no `?` is added, exactly when no condition is left after the id and every paging value is empty. |
| `Datasource.ReadIdLastSegment` | Model/Datasource/RestSource.php:136-145 | The path is `host/<resource>`, then `/<action>` when one is set. When `conditions.id` is non-empty, `/<id>` comes last. |
| `Datasource.ReadFormatSuffix` | Model/Datasource/RestSource.php:147-149 | With a format, the path (after the id segment) is followed by `.<format>`, and the part before it is the path with its leading and trailing `/` runs cut off, as `trim` promises. Without a format, the path is unchanged. |
| `Datasource.FormatAfterTrim` | Model/Datasource/RestSource.php:148 | Cutting `.<format>` off the end of `trim(p, '/') . '.' . format` leaves a string that is `p` with its leading and trailing `/` runs cut off. |
| `Datasource.ReadConditionsOrder` | Model/Datasource/RestSource.php:151-169 | When the caller used no paging key as a condition, the serialised keys are the caller's conditions (without `id`), in their order, followed by those of `limit`, `offset`, `order` and `page` that are non-empty, in that order. |
| `Datasource.ReadUrlSplit` | Model/Datasource/RestSource.php:167-169 | When the path itself holds no `?`, the URL splits at its first `?` into the path and the query string, and a `?` is present exactly when conditions remain. |
| `Datasource.ReadReply` | Model/Datasource/RestSource.php:184-195 | `read` returns the envelope's `data` when `success` is non-empty. It returns `array()` when `success` is empty or the client threw. A non-empty reply always comes from a successful envelope. |
| `Datasource.RestSource.ReadTarget` | Model/Datasource/RestSource.php:136-169 | The URL built by successive appends and in-place edits of the conditions equals `ReadUrl`, the specification of the URL. |
| `Datasource.RestSource.Read` | Model/Datasource/RestSource.php:133-196 | Without the token header: `array()`, and the client is not called. Otherwise: a GET of `ReadUrl` with no body, answered by `ReadReply`. |
| `Datasource.RestSource.Update` | Model/Datasource/RestSource.php:207-219 | Always PUTs the combined field/value map to `host/<resource>`. The conditions play no part. An exception from the client becomes `array()`. |
| `Datasource.RestSource.Delete` | Model/Datasource/RestSource.php:228-239 | Always DELETEs `host/<resource>/<id>` with no body, so a null id gives `host/<resource>/`. An exception from the client becomes `array()`. |
| `Datasource.RestSource.constructor` | Model/Datasource/RestSource.php:7 | The header list starts empty. Host and format are the given configuration. |
| `PhpStrings.Trim` | Model/Datasource/RestSource.php:148 | `trim(s, '/')` is the slice of `s` left between a leading run and a trailing run of `/`. It neither starts nor ends with `/` and uses only characters of `s`. It is empty exactly when `s` is all `/`, and it is `s` itself when `s` has no `/` at either end. |
| `PhpStrings.TrimSlice` | Model/Datasource/RestSource.php:148 | Stripping the leading run of `/`, then the trailing run, leaves the slice of `s` between two runs of `/`, starting where the leading run ends. |
| `PhpStrings.TrimEnds` | Model/Datasource/RestSource.php:148 | After both strips, a non-empty result neither starts nor ends with `/`. |
| `PhpStrings.DecimalRoundTrip` | Model/Datasource/RestSource.php:143 | The decimal text of a non-negative integer id, as string conversion writes it, reads back as the same number. |
| `PhpStrings.IntDecimalRoundTrip` | Model/Datasource/RestSource.php:229 | Negative ids get a leading `-`, and the text still reads back as the same number. |
| `PhpStrings.NegativeDecimal` | Model/Datasource/RestSource.php:229 | A negative integer is written as `-` followed by at least one digit, and the digits read back as its magnitude. |
| `PhpValues.IsEmptyExactly` | Model/Datasource/RestSource.php:142 | `empty()` holds exactly for null, `false`, `0`, `""`, `"0"` and the empty array. |
| `PhpValues.ToStrMeaning` | Model/Datasource/RestSource.php:51 | String conversion writes `""` for null and `false`, `"1"` for `true`, a string as itself and `Array` for an array. An integer becomes decimal digits, after a `-` when it is negative, that read back as the integer. |
| `Datasource.QueryAction` | Model/Datasource/RestSource.php:42-45 | The action is `pass[0]['action']` when `pass[0]` is an array, and otherwise what that lookup gives once `pass[0]` is wrapped as `['action' => pass[0]]`. |
| `UrlEncoding.UrlDecodeRoundTrip` | Model/Datasource/RestSource.php:168 | Decoding what `urlencode` produced gives back the UTF-8 bytes of the original text. |
| `UrlEncoding.UrlEncodeUnreserved` | Model/Datasource/RestSource.php:168 | Letters, digits, `-`, `_` and `.` are left as they are. |
| `QueryString.QueryStringChars` | Model/Datasource/RestSource.php:168 | A query string holds only unreserved characters, `%`, `+`, `=` and `&`. It never holds `?`, `#` or `/`. |
| `QueryString.PlainQuery` | Model/Datasource/RestSource.php:168 | Entries with plain keys and string values are written `k1=v1&k2=v2...`, in entry order. |
| `QueryString.NullEntriesGiveEmptyQuery` | Model/Datasource/RestSource.php:168 | A map whose entries are all null gives the empty query string. |
| `QueryString.NullEntryDropsOut` | Model/Datasource/RestSource.php:168 | A null entry anywhere in the map contributes nothing: removing it leaves the query string unchanged. |
| `QueryString.PairsSplit` | Model/Datasource/RestSource.php:168 | The pairs written for the entries of `a + b` are those of `a` followed by those of `b`. |

## Left out

- The `\Nodes\Curl` transport, the setting of `CURLOPT_HTTPHEADER` and what the server returns. The client is the parameter `send`, and the header list handed to it is the request's `headers`.
- Logging (`logQuery`, `CakeLog::error`), the `fullDebug` switch, `microtime` timing and the `took`/`numRows`/`affected` diagnostics. These are side channels that use floating-point time. The undefined `$params` on lines 67 and 73 is only logged, so it is left out with them.
- The constructor's `DataSource::__construct`, `listSources`, and the configuration lookup of `getBaseUrl`. `host` and `format` are given strings, and `getBaseUrl` is `host`.
- Datasource.RestSource.Query: `$method` is one of get, post, put and delete. `call_user_func` with any other method name is not modelled.
- Datasource.RestSource.Create: `array_combine` with lists of different lengths is a precondition, not an error path. The same holds for `Update`.
- Datasource.RestSource.Update: the field and value lists are sequences, so the default `$values = null` of `update` is modelled as an empty list. PHP's `array_combine` with a null argument warns and returns null (PHP 7) or throws a `TypeError` (PHP 8), and that error path is not modelled. For `create` nothing changes, because `empty(null)` holds just as `empty(array())` does.
- `http_build_query` on float values, objects and integer keys is not modelled. Keys are strings, and values are null, booleans, integers, strings or arrays.
- PHP `empty()` on floats is not modelled, because values hold no floats.
- A `conditions` entry that is not an array is not modelled. Missing conditions are the empty array, as PHP's auto-vivification makes them on assignment.
- `DS` is `/`. The backslash separator of a Windows host is not modelled.
- Converting an array to a string gives `Array`. The notice PHP raises for it is not modelled.
- PHP strings are byte strings, but the model's strings are sequences of Unicode characters. A PHP string holding bytes that are not valid UTF-8 cannot be represented, and `urlencode` is modelled on the UTF-8 bytes of the text.
- `http_build_query` joins entries with the `arg_separator.output` setting. The model fixes it to its default, `&`.

## Findings

| source | as written | input that shows it | evidently intended | confidence | as-written member | corrected member |
|---|---|---|---|---|---|---|
| Model/Datasource/RestSource.php:93-98 | The `id` test reads `$data` before line 98 assigns it. PHP reads the undefined variable as null, so every `create` is a POST to `/<resource>`. | fields `['id']`, values `['7']` | PUT to `/<resource>/7` when the payload carries a non-empty `id` | not executed; high | `Datasource.RestSource.Create`, `Datasource.CreateIdBranchUnreachable` | `Datasource.RestSource.CreateCorrected` |
