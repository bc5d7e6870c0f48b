# FGCClient, modelled in Dafny

`FGCClient` is a small PHP HTTP client built on `file_get_contents` with a
stream context. One object holds:

- the `opts['http']` options array (fixed transport flags, method, body,
  header lines, timeout);
- a trimmed index of the request headers it was given;
- the raw response lines of the last request;
- the last raw body;
- an error pair (`errNo`, `errStr`).

A magic verb call (`$client->post($url, $payload)`) checks the verb and the
URL, prepares the options and runs the transport. It then records what the
transport did.

The model is a Dafny class `Client.FGCClient` with those fields. Its
methods change them in place, as the PHP methods do. The transport call is
not performed: `Request` receives its result as an `Outcome` parameter:

- a completed body with header lines;
- a warning or notice caught by the installed handler, after which the
  call returns either `false` or a (possibly partial) body;
- an exception caught by the `catch` block.

The string and array work is modelled by pure functions, with lemmas about
them:

- the shape test, serialisation and index of request headers;
- the status-code scan;
- the response-header parse;
- the PHP primitives they rely on.

Modules:

- `Wrappers`: `Option` and `Result`.
- `Strings`: the PHP string primitives for byte-per-character text.
  - `trim` with its default list: space, tab, LF, CR, NUL and vertical tab.
  - ASCII `strtolower` and `strtoupper`.
  - `explode` and `implode` on one delimiter, and `explode` with limit 2.
- `PhpArray`: `$a[$k] = $v` applied pair by pair, seen as a map (`Store`).
- `HeaderCodec`: `isAssoc`, the wire lines and index of `setHeaders`,
  `getHttpStatusCode`'s scan and `getResponseHeaders`' parse.
- `RequestOptions`: the `opts['http']` record, the default timeout and the
  payload of a verb call.
- `Dispatch`: the verb allow-list, the URL choice and the two exceptions
  `__call` throws.
- `Client`: the class and lemmas about verb upper-casing.
- `ClientUsage`: three scenario methods that use only the contracts. They
  cover:
  - a rejected upper-case verb;
  - a 404 that is not an error;
  - a DELETE after a POST, a thrown transport error, then `close`.

The getters `getRawResponse`, `getErrorCode`, `getErrorMessage` and
`getRequestHeaders` are plain field reads (`GetRawResponse`,
`GetErrorCode`, `GetErrorMessage`, `GetRequestHeaders`).
`GetHttpStatusCode` is `HeaderCodec.StatusCode` of the stored lines.

### Behaviour worth knowing

- **The index merges.** A second `setHeaders` call replaces the wire lines
  wholesale, but it only adds or overwrites keys of `requestHeaders`. Keys
  from an earlier call survive until `close`
  (`HeaderCodec.RequestIndexKeepsOld`).
- **Errors persist.** A completed request does not clear `errNo`/`errStr`,
  so an error from an earlier request is still reported after it. Only the
  catch block, the warning handler and `close` write them
  (`Client.FGCClient.Request`).
- **The body can be stale.** A DELETE, or a request without payload, does
  not clear the body slot. A DELETE after a POST therefore still carries
  the POST's body (`ClientUsage.DeleteAfterPostThenClose`).
- **The error code is a warning level.** For a warning, the error code is
  the PHP error level the handler receives, not a transport status.

## Model

| member | source | states |
|---|---|---|
| Client.FGCClient.constructor | FGCClient.php:34-59 | The URL is kept; the options are the three fixed flags and nothing else; there is no error, no index, no response lines and a `null` result; the state invariant holds. |
| Client.FGCClient.Request | FGCClient.php:66-92 | The result is exactly `Validate`'s verdict. A failure leaves every field unchanged. On success: the verb is upper-cased into the method; the body is written only for a non-DELETE verb with a payload, otherwise the old body stays; the timeout defaults to 30 only when unset; the request index is untouched; the response lines are the transport's. A completed call sets the body and keeps the old error pair. A warning sets the handler's level and message, and the result to what the call returned: `false` or a possibly partial body. A thrown error keeps the old result, records code and message, and leaves no response lines. |
| Client.FGCClient.RecordOutcome | FGCClient.php:80-89 | What each transport outcome writes into result, error pair and response lines; the error pair is only ever overwritten, never cleared. |
| Client.FGCClient.SetTimeout | FGCClient.php:98-103 | The timeout becomes the given value unconditionally; nothing else in the options changes. |
| Client.FGCClient.SetHeaders | FGCClient.php:109-136 | The header slot is replaced by `RequestLines(headers)`, which has one wire line per entry and ends with `Connection: close`. The index becomes the old index updated by every trimmed entry in order, then `Connection` set to `close`. The state invariant is kept. |
| Client.FGCClient.ParseEntries | FGCClient.php:118-127 | The loop over the input, in map or list form as `isAssoc` decides, yields the wire lines of all entries in order and stores every trimmed pair into the index in order. |
| Client.FGCClient.ParseHeader | FGCClient.php:113-116 | The closure: the index gains the trimmed key with the trimmed value, and the untrimmed `"key: value"` line is appended. |
| Client.FGCClient.GetResponseHeaders | FGCClient.php:200-215 | The loop, which splits each line at every colon and joins the tail again, builds exactly `ResponseHeaderMap` of the stored lines. |
| Client.FGCClient.Close | FGCClient.php:228-238 | Result, error pair, response lines and index are cleared; method, body and header slots become null; URL, timeout and fixed flags are kept; the invariant holds. |
| Client.FGCClient.PrepareRequestOptions | FGCClient.php:245-256 | The method is the upper-cased verb. The body is the payload (verbatim text or its JSON encoding) only when the method is not DELETE and a payload exists; otherwise it is the previous body. The timeout defaults to 30 only when unset. The fixed flags and the header slot are untouched. |
| Client.FGCClient.WarningHandler | FGCClient.php:263-267 | The error pair becomes exactly the level and message handed to the handler. |
| Client.Outcome.ResponseLines | FGCClient.php:89 | The recorded response lines are the transport's lines, or none when it threw. |
| Client.FGCClient.GetHttpStatusCode | FGCClient.php:141-150 | The code is in 0..999 and is 0 before any response line is recorded; its value is given by `HeaderCodec.StatusCodeValue` and `HeaderCodec.StatusCodeNoRun`. |
| Client.FGCClient.GetRawResponse | FGCClient.php:155-158 | The stored result as it is: `null`, `false` or the body. |
| Client.FGCClient.GetErrorCode | FGCClient.php:184-187 | The stored error code, `null` when nothing was recorded. |
| Client.FGCClient.GetErrorMessage | FGCClient.php:192-195 | The stored error message, `null` when nothing was recorded. |
| Client.FGCClient.GetRequestHeaders | FGCClient.php:220-223 | The request-header index as the `setHeaders` calls since the last `close` left it. |
| Client.UpperAllowed | FGCClient.php:247-249 | Every allowed verb upper-cases to one of POST, GET, PUT or DELETE, and to DELETE exactly when it is `delete`. |
| Dispatch.Validate | FGCClient.php:68-82 | `UnsupportedMethod` exactly when the verb is not in the case-sensitive allow-list. `MissingUrl` exactly when the verb is allowed and neither the argument nor the constructor URL is present and non-empty. On success the URL is non-empty, is the argument when that is usable, and is the constructor URL otherwise. |
| Dispatch.UpperCaseVerbRejected | FGCClient.php:68-70 | `GET` and `Post` are rejected whatever URLs are at hand. |
| HeaderCodec.IsAssoc | FGCClient.php:273-280 | The array counts as a map exactly when it is non-empty and some position `i` does not carry the integer key `i`; empty and `0..n-1` arrays count as lists. |
| HeaderCodec.RequestLines | FGCClient.php:111-133 | The wire list has one more line than the input, its last line is `Connection: close`, and line `i` is the untrimmed `"key: value"` of entry `i` (so a caller's own Connection line stays ahead of the forced one). |
| HeaderCodec.RequestIndexForcesClose | FGCClient.php:129-131 | The index always maps `Connection` to `close`, whatever the caller sent, and keeps every key of the earlier index. |
| HeaderCodec.RequestIndexKeys | FGCClient.php:114-131 | The index only adds or overwrites keys: its keys are exactly the earlier keys, the trimmed keys of the entries, and `Connection`. |
| HeaderCodec.RequestIndexLookup | FGCClient.php:113-125 | For any trimmed key other than `Connection`, the index holds the trimmed value of the last entry with that key. |
| HeaderCodec.RequestIndexKeepsOld | FGCClient.php:114 | A key of the earlier index that no entry names keeps its earlier value (the index merges). |
| HeaderCodec.ListEntryWireLine | FGCClient.php:113-126 | A list entry is split at its first colon only, so later colons stay in the value; the wire line puts `": "` back between the untrimmed parts, so `"A: b"` is sent as `"A:  b"`. |
| HeaderCodec.MapAndListAgree | FGCClient.php:118-127 | A map and the list of its entries written `"Key:Value"` are both accepted and give the same wire lines and the same index. |
| HeaderCodec.MapAndSpacedListSameIndex | FGCClient.php:113-127 | A map and the list of its entries written `"Key: Value"` (keys without a colon) are both accepted and give the same index: the space after the colon is trimmed away. |
| HeaderCodec.Range | FGCClient.php:279 | `range(lo, lo+n-1)` as array keys: `n` keys, the `i`-th being the integer `lo + i`. |
| HeaderCodec.FirstRun | FGCClient.php:144 | The position found is a run of three digits with no such run before it; no position means there is no run at all. |
| HeaderCodec.StatusCode | FGCClient.php:141-150 | The code is in 0..999 and is 0 when no response line is recorded. |
| HeaderCodec.StatusLineCode | FGCClient.php:143-146 | For a Status-Line of section 6.1 of RFC 1945 with one-digit version numbers, the scan returns the three-digit Status-Code. |
| HeaderCodec.StatusCodeValue | FGCClient.php:141-150 | For any recorded response, the code is the integer value of the leftmost run of three consecutive digits in line 0, wherever it sits and whatever follows it. |
| HeaderCodec.StatusCodeNoRun | FGCClient.php:143-146 | A line 0 with no three consecutive digits gives 0. |
| HeaderCodec.NotFoundIs404 | FGCClient.php:141-150 | `HTTP/1.0 404 Not Found` gives 404. |
| HeaderCodec.ExplodedLine | FGCClient.php:207-211 | Exploding a line at every colon, shifting off the key and imploding the rest is, for every line, splitting at the first colon: the lower-cased text before it and the trimmed text after it, later colons kept. |
| HeaderCodec.ResponseLineOfWire | FGCClient.php:207-211 | A line `"key: value"` whose key has no colon and whose value has no padding reads back as the lower-cased key and the value unchanged, whatever colons the value holds. |
| HeaderCodec.ResponseHeaderKeys | FGCClient.php:204-212 | The keys of the parsed map are exactly the keys of lines 1 onward; line 0 never contributes. |
| HeaderCodec.ResponseHeaderLastWins | FGCClient.php:206-212 | The value of a key is the value of the last line, after line 0, that carries it. |
| HeaderCodec.TwoHeaderLines | FGCClient.php:206-212 | The two header lines after the Status-Line give the map of their two pairs, the second overwriting the first on a shared key. |
| HeaderCodec.ResponseHeadersExample | FGCClient.php:200-215 | `HTTP/1.0 200 OK`, `ETag: x`, `Link: a:b` give `etag => x` and `link => a:b`. |
| Strings.Trim | FGCClient.php:114 | The trimmed text is no longer than the input and neither starts nor ends with a trim character. |
| Strings.TrimPadding | FGCClient.php:114 | Trimming removes exactly the padding: any run of trim characters around a text that neither starts nor ends with one. |
| Strings.TrimLeadingSpace | FGCClient.php:114 | One leading space makes no difference to trim. |
| Strings.SplitFirst | FGCClient.php:124 | `explode(':', $s, 2)`: when the delimiter occurs, the input is the part before it, the delimiter, then the part after it, and the part before has no delimiter; otherwise the delimiter does not occur. |
| Strings.SplitFirstJoin | FGCClient.php:124 | Splitting a colon-free key joined to any value by the delimiter gives back both parts. |
| Strings.ImplodeExplode | FGCClient.php:207-211 | Imploding what was exploded on the same character restores the text. |
| Strings.ExplodeFirst | FGCClient.php:207-211 | The first piece of `explode` is the text before the first delimiter; the remaining pieces (at least one), joined again, are exactly the text after it. |
| Strings.ToLower | FGCClient.php:209 | Same length; an upper-case ASCII letter becomes its lower-case letter, every other character is kept, and no upper-case letter remains. |
| Strings.ToUpper | FGCClient.php:247 | Same length; a lower-case ASCII letter becomes its upper-case letter, every other character is kept, and no lower-case letter remains. |
| PhpArray.StoreKeys | FGCClient.php:114 | After the assignments, the keys are the starting keys plus every assigned key. |
| PhpArray.StoreLastWins | FGCClient.php:114 | A key holds the value of the last assignment to it. |
| PhpArray.StoreUntouched | FGCClient.php:114 | A starting key that no assignment names keeps its value. |

## Left out

- Transport: `file_get_contents`, `stream_context_create` and
  `$http_response_header` are I/O. `Request` takes their result as an
  `Outcome` parameter and returns the URL the transport would be called
  with, instead of `$this`.
- `set_error_handler`: the constructor does not register a handler. The
  handler's effect appears only as the `Warned` outcome of a request. PHP's
  handler is process-wide and the latest client to register it wins; the
  model does not capture that. Only the last warning of a call is modelled.
- `getParsedResponse` (`json_decode` and the object cast) is not part of
  this model. JSON is a foreign library. For the same reason,
  `json_encode` of a non-string payload is carried in by
  `Payload.Structured`, and its failure value `false` is not modelled.
- Client.FGCClient.SetHeaders: requires `HeaderCodec.WellFormed`. Under
  `strict_types`, the source raises a TypeError for the following inputs,
  and the model does not cover them:
  - a list entry with no colon, whose value becomes `null`;
  - an integer key in a map-shaped array.
- Client.FGCClient.GetHttpStatusCode: when line 0 has no three-digit run,
  PHP reads an undefined index. That raises a warning, which the installed
  handler stores in the error pair, and returns 0. The model returns 0
  without the error-pair side effect.
- Client.FGCClient.GetResponseHeaders: for a response line with no colon
  (for example the second Status-Line after a followed redirect), the
  source first warns about the undefined index `$parts[0]`, which the
  handler stores in the error pair. It then throws a TypeError, because
  under `strict_types` `trim` refuses `null`. The model gives the lower-cased
  line with the empty value instead (`HeaderCodec.ExplodedLine`), and has
  neither the error-pair side effect nor the exception.
- Dispatch.Validate: does not model that the string `"0"` is falsy in PHP.
  The model counts a URL as missing only when it is absent or empty. This
  changes the outcome in two cases, where PHP throws the missing-URL
  exception and the model succeeds with `"0"`:
  - the argument is `"0"` and the constructor URL is absent, empty or `"0"`;
  - the argument is absent or empty and the constructor URL is `"0"`.

  An argument `"0"` next to any other non-empty constructor URL is used as
  the URL in PHP and in the model alike, because the source's own test on
  the argument is only `!= ''`. Non-string arguments to a verb call are not
  modelled.
- PHP array details:
  - Numeric-string keys such as `"1"` become integer keys in PHP arrays.
  - PHP arrays keep insertion order, and the model's maps do not record
    it. The index and the parsed response headers are `map`s.
- Strings.ToLower and Strings.ToUpper: ASCII only, as `strtolower` and
  `strtoupper` are from PHP 8.2. Locale-dependent case mapping of earlier
  PHP versions is not modelled. Strings are sequences of characters, one
  per byte.
