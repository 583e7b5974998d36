# Terminal image pipeline: a Dafny model

This project models the sequential logic of a small serverless automation. When a
"Terminal" document is created, the handler reads the terminal's `link`, finds
the page's hero image, uploads that image to Cloudflare Images, and writes the
hosted URL back into the document's `terminalImageUrl` field. The model covers
three parts:

- **URL normalisation** (`ensure_url_encoded`). This includes the
  percent-encoding (`quote`) and percent-decoding (`unquote`) it relies on,
  following section 2.1 of RFC 3986. A URL is modelled as the octets of its UTF-8
  encoding (`UrlCodec.Bytes`, characters below 256). `quote` encodes text to
  UTF-8 and then escapes octets, so the model is exact at this level. The test
  "does decoding change the URL?" holds exactly when the URL contains a
  well-formed `%HH` escape, and that is true of the text and of its octets alike.
- **The fetch with retries** (`get_with_retry`). The network is replaced by a
  sequence of per-attempt outcomes. The method returns the response and a trace
  of the requests sent (URL and timeout) and of the sleeps taken. The model
  follows the code as written, including the sleep after the final failure. See
  Findings.
- **The upload client and the trigger handler** (`save_image_in_cloudfare`,
  `store_terminal_image`). The upload's HTTP response is a `(status, id)` value.
  The image locator is an oracle whose answer is a parameter. The document is a
  map from field names to values. Each run records the collaborator calls it made,
  with their arguments.

Modules:

- `Wrappers`: `Option`.
- `UrlCodec`: quote/unquote and their laws.
- `WebUtils`: `web_utils.py`.
- `TerminalHandler`: `main.py`.

## Model

| member | source | states |
|---|---|---|
| `UrlCodec.HexDigit` | functions/custom_utils/web_utils.py:25 | an escape's digit is upper-case hex, and decoding reads back the value it encodes |
| `UrlCodec.Escape` | functions/custom_utils/web_utils.py:25 | an escaped octet becomes a well-formed `%HH` triplet with upper-case digits that decodes back to that octet |
| `UrlCodec.Unquote` | functions/custom_utils/web_utils.py:22 | decoding never lengthens a string; the body is the definition (a left-to-right scan in which `%HH` becomes one octet and any other `%` stays literal) |
| `UrlCodec.Quote` | functions/custom_utils/web_utils.py:25 | the output is at least as long as the input and at most three times as long; the body is the definition (safe octets kept, every other octet written as `%HH`) |
| `UrlCodec.UnquoteFixedIffNoEscape` | functions/custom_utils/web_utils.py:22-24 | decoding leaves a string unchanged exactly when it has no well-formed `%HH` escape, which makes the test at line 24 an "escape present?" test |
| `UrlCodec.QuoteAppend` | functions/custom_utils/web_utils.py:25 | encoding works octet by octet: it distributes over concatenation |
| `UrlCodec.QuoteFixedIffAllSafe` | functions/custom_utils/web_utils.py:25 | encoding leaves a string unchanged exactly when every octet is safe |
| `UrlCodec.QuoteChangedHasEscape` | functions/custom_utils/web_utils.py:25 | when encoding changes a string, the result contains a well-formed escape |
| `UrlCodec.QuoteIsQuoted` | functions/custom_utils/web_utils.py:25 | when `%` is not safe, every `%` in the output opens an upper-case `%HH` triplet and every other output character is safe |
| `UrlCodec.UnquoteQuote` | functions/custom_utils/web_utils.py:22-25 | decoding undoes encoding for every octet string, provided `%` is not in the safe set |
| `WebUtils.EnsureUrlEncoded` | functions/custom_utils/web_utils.py:7-28 | a URL with a well-formed escape is returned unchanged; any other URL is returned as `quote(url, safe=":/.-")` |
| `WebUtils.EnsureUrlEncodedAlphabet` | functions/custom_utils/web_utils.py:22-25 | in the "not encoded" branch the output is a sequence of unreserved characters, `:`, `/` and upper-case `%HH` triplets |
| `WebUtils.EnsureUrlEncodedRoundTrip` | functions/custom_utils/web_utils.py:22-25 | in the "not encoded" branch, decoding the output gives back the input URL |
| `WebUtils.EnsureUrlEncodedIdempotent` | functions/custom_utils/web_utils.py:7-28 | applying the normalisation twice gives the same result as applying it once, for every URL |
| `WebUtils.EnsureUrlEncodedEscapesSpace` | functions/custom_utils/web_utils.py:22-25 | a space between two runs of safe characters becomes `%20`, and nothing else changes |
| `WebUtils.EnsureUrlEncodedExamples` | functions/custom_utils/web_utils.py:7-28 | `http://x.com/a b` becomes `http://x.com/a%20b`, which is then left unchanged |
| `WebUtils.EnsureUrlEncodedKeepsMixedUrl` | functions/custom_utils/web_utils.py:24-28 | the test is a heuristic: one escape makes the whole URL count as encoded, so `http://x.com/a b%20c` comes back with its raw space |
| `WebUtils.FirstOk` | functions/custom_utils/web_utils.py:50-57 | the attempt that ends the loop is the first one that returns a response; every earlier attempt failed |
| `WebUtils.AttemptTimeout` | functions/custom_utils/web_utils.py:46-71 | attempt k (0-based) uses timeout 5·(k+1): 5, 10, 15 |
| `WebUtils.BackoffDelay` | functions/custom_utils/web_utils.py:45-70 | the sleep after failed attempt k (0-based) is 2^(k+1) seconds: 2, 4, 8 |
| `WebUtils.GetWithRetry` | functions/custom_utils/web_utils.py:44-77 | normalises the URL once; makes at most 3 requests, all to that URL, with timeouts 5, 10 and 15; sleeps 2·2^k after failed attempt k, the last one included; returns the first response whatever its status; returns `None` only when all 3 attempts fail |
| `WebUtils.AllFailuresSleepAfterLastAttempt` | functions/custom_utils/web_utils.py:45-71 | as written, three failures produce exactly: send(5), sleep 2, send(10), sleep 4, send(15), sleep 8 |
| `WebUtils.GetWithRetryIntended` | functions/custom_utils/web_utils.py:66-75 | with the guard the comments describe, the last failed attempt takes the "all attempts failed" branch and does not sleep |
| `WebUtils.AllFailuresIntended` | functions/custom_utils/web_utils.py:66-75 | with that guard, three failures produce exactly: send(5), sleep 2, send(10), sleep 4, send(15), then the give-up branch |
| `WebUtils.PyStr` | functions/custom_utils/web_utils.py:94-113 | an f-string renders a set value unchanged and an unset (`None`) value as the text `None`; `PyStrCollision` states when two settings therefore render alike |
| `WebUtils.UploadEndpoint` | functions/custom_utils/web_utils.py:102 | the endpoint is `https://api.cloudflare.com/client/v4/accounts/`, then the account id (`None` when unset), then `/images/v1` |
| `WebUtils.PyStrCollision` | functions/custom_utils/web_utils.py:94-113 | two settings render alike in the f-strings exactly when they are equal, or when one is unset and the other is the text `None` |
| `WebUtils.UploadEndpointInjective` | functions/custom_utils/web_utils.py:102 | two accounts share an endpoint exactly when their ids render alike: equal ids, or an unset id and the id `None` |
| `WebUtils.HostedUrl` | functions/custom_utils/web_utils.py:113 | `{base}/{id}/` is the base, one `/`, the id and a closing `/`, so it is two characters longer than base and id together |
| `WebUtils.ImageIdOf` | functions/custom_utils/web_utils.py:113 | whenever it recovers an id from a hosted URL, rebuilding the hosted URL from that id gives the same URL |
| `WebUtils.ImageIdOfHostedUrl` | functions/custom_utils/web_utils.py:111-113 | the image id can always be read back from `{base}/{id}/` |
| `WebUtils.SaveImageInCloudflare` | functions/custom_utils/web_utils.py:79-113 | one POST to the account's endpoint, carrying `Bearer {token}`, the image URL and `requireSignedURLs` = `false`; `None` exactly when the status is not 200; on 200, a URL that starts with the base URL, ends with `/` and carries the returned id |
| `WebUtils.SaveImageExamples` | functions/custom_utils/web_utils.py:107-113 | base `https://imagedelivery.net/xyz` with id `abc123` gives `https://imagedelivery.net/xyz/abc123/`; a 403 gives `None` |
| `TerminalHandler.Link` | functions/main.py:55-59 | the link is read only when the `link` field holds a string, and then it is that string; `HandlerKeepsLink` states that the handler's own write leaves it unchanged |
| `TerminalHandler.HandlerKeepsLink` | functions/main.py:55-84 | the handler's write to `terminalImageUrl` never changes the link it read: reading the link afterwards gives the same answer |
| `TerminalHandler.StoreTerminalImage` | functions/main.py:44-88 | stops at the first missing or empty value (link, located URL, saved URL); updates the document exactly when all three are non-empty; on update, sets `terminalImageUrl` to the saved URL and leaves every other field unchanged; the closing log line raises `KeyError` exactly when `name` is absent |
| `TerminalHandler.StoreTerminalImageCalls` | functions/main.py:55-84 | without a link nothing is called; the locator gets exactly the link; whenever the located URL is non-empty, the upload is called, second, with the three settings and exactly the located URL; the update comes last, at most once, only on `Stored`, and writes only `terminalImageUrl` |
| `TerminalHandler.DocumentChangesOnlyWhenAllStagesSucceed` | functions/main.py:55-84 | the document changes only if link, located URL and saved URL are all non-empty; when they are, the new document is the old one with `terminalImageUrl` set to the saved URL |
| `TerminalHandler.ImageNotFoundLeavesFieldUnset` | functions/main.py:61-65 | when the locator finds nothing, an unset `terminalImageUrl` stays unset and nothing is stored |

## Left out

- `get_terminal_image_url` (functions/custom_utils/image_utils.py) is not part of this model. Its work is HTML parsing and tag traversal done by an external library. The handler takes the locator's answer as a parameter. A consequence: that function treats a fetched response with status 400 or above as no response, because of `requests.Response` truthiness. The model does not cover this.
- UrlCodec.Unquote: returns the decoded octets. Python's `unquote` then decodes them as UTF-8, replacing malformed sequences. That text-level step is left out because it needs a UTF-8 decoder. The decision in `ensure_url_encoded` and the round trip do not depend on it.
- Networking, sleeping and the clock are not modelled. `requests.get`, `requests.post` and `time.sleep` become data: a sequence of outcomes, an upload response, and a returned trace of requests and sleeps.
- WebUtils.GetWithRetry: requires an outcome for each of the 3 possible attempts. The network answers every request, so this limits the oracle and not the callers.
- Logging is left out, except the "all attempts failed" branch, shown as a `GaveUp` trace event, and the `terminal["name"]` lookups in the handler's log lines, which raise `KeyError` when the field is missing.
- JSON decoding of the upload response is left out: the response is modelled as a status and an id. A body without `result.id` raises `KeyError`. Any exception from `requests.post` propagates out of the handler. Both are outside this model.
- Multipart encoding and header transport belong to the HTTP library. The request is modelled as its endpoint, authorisation value and two form fields.
- Sentry set-up, Firebase app initialisation and environment loading (functions/main.py:18-41) are left out. They are configuration and telemetry. The three settings are passed through as possibly-unset strings. An unset setting renders as `None` in the f-strings, which the model reproduces.
- Document field values are strings or null. Other Firestore value types, and failure of the final `update` call, are not modelled.

## Findings

| source | as written | input that shows it | evidently intended | confidence | as-written member | corrected member |
|---|---|---|---|---|---|---|
| functions/custom_utils/web_utils.py:67 | `if attempt < max_attempts:` inside `for attempt in range(max_attempts)` is always true. After the third failure the code sleeps 8 more seconds before returning `None`, and the `else` branch that logs "All attempts failed." never runs | every attempt fails (three timeouts) | `attempt < max_attempts - 1`, as the comments at lines 66 and 73 describe: no sleep after the last attempt, which takes the `else` branch instead | high; not executed | `WebUtils.GetWithRetry`, `WebUtils.AllFailuresSleepAfterLastAttempt` | `WebUtils.GetWithRetryIntended`, `WebUtils.AllFailuresIntended` |

The model keeps both versions side by side. No other part of the model calls the
fetch, because the handler reaches it only through the image locator, which is an
oracle here.
