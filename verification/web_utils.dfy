/**
 * The web helpers of the terminal-image pipeline: URL normalisation, the GET
 * with bounded retries, and the image-hosting upload call.
 *
 * The network and the clock are replaced by data: the GET's outcome on each
 * attempt is a parameter, the upload's HTTP response is a parameter, and the
 * requests sent and the sleeps taken are returned as a trace.
 */
module WebUtils {
  import opened Wrappers
  import opened UrlCodec

  // ---------------------------------------------------------------------
  // ensure_url_encoded
  // ---------------------------------------------------------------------

  /** Characters `ensure_url_encoded` asks `quote` to keep besides the unreserved ones. */
  const UrlSafe: string := ":/.-"

  /**
   * Decodes the URL; a URL that decoding leaves unchanged counts as not yet
   * encoded and is encoded, any other URL is returned as it is.
   */
  function EnsureUrlEncoded(url: Bytes): (r: Bytes)
    ensures HasEscape(url) ==> r == url
    ensures !HasEscape(url) ==> r == Quote(url, UrlSafe)
  {
    UnquoteFixedIffNoEscape(url);
    if Unquote(url) == url then Quote(url, UrlSafe) else url
  }

  /** In the "not encoded" branch every `%` of the result opens a `%HH` triplet and every other character is unreserved, `:` or `/`. */
  lemma EnsureUrlEncodedAlphabet(url: Bytes)
    requires !HasEscape(url)
    ensures IsQuoted(EnsureUrlEncoded(url), UrlSafe)
    ensures forall c | IsSafe(c, UrlSafe) :: IsAlwaysSafe(c) || c == ':' || c == '/'
  {
    QuoteIsQuoted(url, UrlSafe);
  }

  /** In the "not encoded" branch decoding the result gives back the original URL. */
  lemma EnsureUrlEncodedRoundTrip(url: Bytes)
    requires !HasEscape(url)
    ensures Unquote(EnsureUrlEncoded(url)) == url
  {
    UnquoteQuote(url, UrlSafe);
  }

  /** Normalising a normalised URL changes nothing. */
  lemma EnsureUrlEncodedIdempotent(url: Bytes)
    ensures EnsureUrlEncoded(EnsureUrlEncoded(url)) == EnsureUrlEncoded(url)
  {
    if !HasEscape(url) && Quote(url, UrlSafe) != url {
      QuoteChangedHasEscape(url, UrlSafe);
    }
  }

  /** A space between two runs of safe characters is escaped as `%20`, and nothing else changes. */
  lemma EnsureUrlEncodedEscapesSpace(p: Bytes, q: Bytes)
    requires AllSafe(p, UrlSafe) && AllSafe(q, UrlSafe)
    ensures EnsureUrlEncoded(p + " " + q) == p + "%20" + q
  {
    QuoteFixedIffAllSafe(p, UrlSafe);
    QuoteFixedIffAllSafe(q, UrlSafe);
    QuoteAppend(p, " ", UrlSafe);
    QuoteAppend(p + " ", q, UrlSafe);
    assert Quote(" ", UrlSafe) == "%20";
    assert '%' !in p + " " + q by {
      assert forall i | 0 <= i < |p| :: IsSafe(p[i], UrlSafe);
      assert forall i | 0 <= i < |q| :: IsSafe(q[i], UrlSafe);
    }
  }

  /** A URL with a space is encoded, and the encoded form is left alone. */
  lemma EnsureUrlEncodedExamples()
    ensures EnsureUrlEncoded("http://x.com/a b") == "http://x.com/a%20b"
    ensures EnsureUrlEncoded("http://x.com/a%20b") == "http://x.com/a%20b"
  {
    EnsureUrlEncodedEscapesSpace("http://x.com/a", "b");
    assert "http://x.com/a" + " " + "b" == "http://x.com/a b";
    assert "http://x.com/a" + "%20" + "b" == "http://x.com/a%20b";
    var encoded: Bytes := "http://x.com/a%20b";
    assert IsEscapeAt(encoded, 14);
  }

  /**
   * The decision is a heuristic: one escape anywhere makes the whole URL count
   * as encoded, so a space next to it stays unescaped.
   */
  lemma EnsureUrlEncodedKeepsMixedUrl()
    ensures EnsureUrlEncoded("http://x.com/a b%20c") == "http://x.com/a b%20c"
    ensures !IsQuoted(EnsureUrlEncoded("http://x.com/a b%20c"), UrlSafe)
  {
    var mixed: Bytes := "http://x.com/a b%20c";
    assert IsEscapeAt(mixed, 16);
    NotQuotedWithSpace(mixed, 14);
  }

  /** A raw space cannot occur in an encoded string. */
  lemma {:induction false} NotQuotedWithSpace(r: seq<char>, i: nat)
    requires i < |r| && r[i] == ' '
    requires forall j | 0 <= j < i :: r[j] != '%'
    ensures !IsQuoted(r, UrlSafe)
    decreases i
  {
    if i > 0 {
      NotQuotedWithSpace(r[1..], i - 1);
    }
  }

  // ---------------------------------------------------------------------
  // get_with_retry
  // ---------------------------------------------------------------------

  const MaxAttempts: nat := 3

  /** A response received from the server, whatever its status code. */
  datatype Response = Response(status: int, body: string)

  /** The two failure branches: a timeout and any other exception; both are retried alike. */
  datatype FailureKind = TimedOut | OtherError

  /** What one GET attempt yields. */
  datatype Outcome = Ok(response: Response) | Fail(kind: FailureKind)

  /** The observable effects of the retry loop, in order. */
  datatype Event =
    | Sent(url: Bytes, timeout: nat)   // one GET with that timeout in seconds
    | Slept(seconds: nat)              // one back-off sleep
    | GaveUp                           // the "all attempts failed" branch

  /** `base` raised to `exp`. */
  function Power(base: nat, exp: nat): nat {
    if exp == 0 then 1 else base * Power(base, exp - 1)
  }

  /** Timeout of attempt `k` (0-based): 5 seconds, then 5 more per failed attempt. */
  function AttemptTimeout(k: nat): (t: nat)
    ensures t == 5 * (k + 1)
  {
    if k == 0 then 5 else AttemptTimeout(k - 1) + 5
  }

  /** Sleep after failed attempt `k` (0-based): 2 seconds, doubling each time. */
  function BackoffDelay(k: nat): (d: nat)
    ensures d == Power(2, k + 1)
  {
    if k == 0 then 2 else 2 * BackoffDelay(k - 1)
  }

  /** Event `i` of the schedule: attempts and sleeps alternate. */
  function Scheduled(url: Bytes, i: nat): Event {
    if i % 2 == 0 then Sent(url, AttemptTimeout(i / 2)) else Slept(BackoffDelay(i / 2))
  }

  /** Index of the first successful outcome, or `|outcomes|` when all fail. */
  function FirstOk(outcomes: seq<Outcome>): (k: nat)
    ensures k <= |outcomes|
    ensures forall j | 0 <= j < k :: outcomes[j].Fail?
    ensures k < |outcomes| ==> outcomes[k].Ok?
  {
    if |outcomes| == 0 then 0
    else if outcomes[0].Ok? then 0
    else 1 + FirstOk(outcomes[1..])
  }

  lemma FirstOkAt(outcomes: seq<Outcome>, k: nat)
    requires k < |outcomes| && outcomes[k].Ok?
    requires forall j | 0 <= j < k :: outcomes[j].Fail?
    ensures FirstOk(outcomes) == k
  {
  }

  /**
   * `get_with_retry` as written: the URL is normalised once; attempt `k` sends
   * a GET with timeout `AttemptTimeout(k)`; the first response ends the loop,
   * whatever its status; after every failure, including the last, it sleeps
   * `BackoffDelay(k)`, because the guard `attempt < max_attempts` holds on every
   * iteration of `range(max_attempts)`.
   */
  method GetWithRetry(url: Bytes, outcomes: seq<Outcome>) returns (result: Option<Response>, trace: seq<Event>)
    requires |outcomes| >= MaxAttempts
    ensures var k := FirstOk(outcomes[..MaxAttempts]);
      if k < MaxAttempts then result == Some(outcomes[k].response) && |trace| == 2 * k + 1
      else result == None && |trace| == 2 * MaxAttempts
    ensures forall i | 0 <= i < |trace| :: trace[i] == Scheduled(EnsureUrlEncoded(url), i)
  {
    var delay := 2;
    var timeout := 5;
    var target := EnsureUrlEncoded(url);
    trace := [];
    var attempt := 0;
    while attempt < MaxAttempts
      invariant 0 <= attempt <= MaxAttempts
      invariant timeout == AttemptTimeout(attempt) && delay == BackoffDelay(attempt)
      invariant |trace| == 2 * attempt
      invariant forall i | 0 <= i < |trace| :: trace[i] == Scheduled(target, i)
      invariant forall j | 0 <= j < attempt :: outcomes[j].Fail?
    {
      trace := trace + [Sent(target, timeout)];
      if outcomes[attempt].Ok? {
        FirstOkAt(outcomes[..MaxAttempts], attempt);
        return Some(outcomes[attempt].response), trace;
      }
      if attempt < MaxAttempts {
        trace := trace + [Slept(delay)];
        delay := delay * 2;
        timeout := timeout + 5;
      }
      // The `else` branch, which only logs that all attempts failed, is never taken.
      attempt := attempt + 1;
    }
    assert FirstOk(outcomes[..MaxAttempts]) == MaxAttempts;
    result := None;
  }

  /** When every attempt fails, the code as written ends with an eight-second sleep. */
  lemma AllFailuresSleepAfterLastAttempt(url: Bytes, trace: seq<Event>)
    requires |trace| == 2 * MaxAttempts
    requires forall i | 0 <= i < |trace| :: trace[i] == Scheduled(url, i)
    ensures trace == [Sent(url, 5), Slept(2), Sent(url, 10), Slept(4), Sent(url, 15), Slept(8)]
  {
    assert trace[0] == Scheduled(url, 0);
    assert trace[1] == Scheduled(url, 1);
    assert trace[2] == Scheduled(url, 2);
    assert trace[3] == Scheduled(url, 3);
    assert trace[4] == Scheduled(url, 4);
    assert trace[5] == Scheduled(url, 5);
  }

  /**
   * `get_with_retry` with the guard the comments describe, `attempt <
   * max_attempts - 1`: no sleep follows the last attempt, which instead takes
   * the "all attempts failed" branch.
   */
  method GetWithRetryIntended(url: Bytes, outcomes: seq<Outcome>) returns (result: Option<Response>, trace: seq<Event>)
    requires |outcomes| >= MaxAttempts
    ensures var k := FirstOk(outcomes[..MaxAttempts]);
      if k < MaxAttempts then result == Some(outcomes[k].response) && |trace| == 2 * k + 1
      else result == None && |trace| == 2 * MaxAttempts && trace[|trace| - 1] == GaveUp
    ensures forall i | 0 <= i < |trace| && i < 2 * MaxAttempts - 1 :: trace[i] == Scheduled(EnsureUrlEncoded(url), i)
  {
    var delay := 2;
    var timeout := 5;
    var target := EnsureUrlEncoded(url);
    trace := [];
    var attempt := 0;
    while attempt < MaxAttempts
      invariant 0 <= attempt <= MaxAttempts
      invariant attempt < MaxAttempts ==> timeout == AttemptTimeout(attempt) && delay == BackoffDelay(attempt)
      invariant attempt < MaxAttempts ==> |trace| == 2 * attempt
      invariant attempt == MaxAttempts ==> |trace| == 2 * MaxAttempts && trace[|trace| - 1] == GaveUp
      invariant forall i | 0 <= i < |trace| && i < 2 * MaxAttempts - 1 :: trace[i] == Scheduled(target, i)
      invariant forall j | 0 <= j < attempt :: outcomes[j].Fail?
    {
      trace := trace + [Sent(target, timeout)];
      if outcomes[attempt].Ok? {
        FirstOkAt(outcomes[..MaxAttempts], attempt);
        return Some(outcomes[attempt].response), trace;
      }
      if attempt < MaxAttempts - 1 {
        trace := trace + [Slept(delay)];
        delay := delay * 2;
        timeout := timeout + 5;
      } else {
        trace := trace + [GaveUp];
      }
      attempt := attempt + 1;
    }
    assert FirstOk(outcomes[..MaxAttempts]) == MaxAttempts;
    result := None;
  }

  /** With the intended guard, three failures take two sleeps and no third one. */
  lemma AllFailuresIntended(url: Bytes, trace: seq<Event>)
    requires |trace| == 2 * MaxAttempts && trace[|trace| - 1] == GaveUp
    requires forall i | 0 <= i < |trace| && i < 2 * MaxAttempts - 1 :: trace[i] == Scheduled(url, i)
    ensures trace == [Sent(url, 5), Slept(2), Sent(url, 10), Slept(4), Sent(url, 15), GaveUp]
  {
    assert trace[0] == Scheduled(url, 0);
    assert trace[1] == Scheduled(url, 1);
    assert trace[2] == Scheduled(url, 2);
    assert trace[3] == Scheduled(url, 3);
    assert trace[4] == Scheduled(url, 4);
  }

  // ---------------------------------------------------------------------
  // save_image_in_cloudfare
  // ---------------------------------------------------------------------

  /** How a Python f-string renders an optional configuration value. */
  function PyStr(v: Option<string>): (s: string)
    ensures v.Some? ==> s == v.value
    ensures v.None? ==> s == "None"
  {
    match v
    case Some(text) => text
    case None => "None"
  }

  const EndpointPrefix: string := "https://api.cloudflare.com/client/v4/accounts/"
  const EndpointSuffix: string := "/images/v1"

  /** The image-import endpoint of the given account. */
  function UploadEndpoint(accountId: Option<string>): (e: string)
    ensures |e| == |EndpointPrefix| + |PyStr(accountId)| + |EndpointSuffix|
    ensures e[..|EndpointPrefix|] == EndpointPrefix
    ensures e[|e| - |EndpointSuffix|..] == EndpointSuffix
    ensures e[|EndpointPrefix|..|e| - |EndpointSuffix|] == PyStr(accountId)
  {
    EndpointPrefix + PyStr(accountId) + EndpointSuffix
  }

  /**
   * Two settings render alike exactly when they are equal, or when one is unset
   * and the other is the literal text `None`.
   */
  lemma PyStrCollision(a: Option<string>, b: Option<string>)
    ensures PyStr(a) == PyStr(b) <==>
              a == b || (a == None && b == Some("None")) || (a == Some("None") && b == None)
  {
  }

  /**
   * Two accounts share an endpoint exactly when their ids render alike: an
   * unset account id and the id `None` upload to the same place.
   */
  lemma UploadEndpointInjective(a: Option<string>, b: Option<string>)
    ensures UploadEndpoint(a) == UploadEndpoint(b) <==> PyStr(a) == PyStr(b)
    ensures UploadEndpoint(a) == UploadEndpoint(b) <==>
              a == b || (a == None && b == Some("None")) || (a == Some("None") && b == None)
  {
    PyStrCollision(a, b);
  }

  /** The single POST: endpoint, bearer authorisation and the two form fields. */
  datatype UploadRequest = UploadRequest(endpoint: string, authorization: string, imageUrl: string, requireSignedUrls: string)

  /** The provider's answer, reduced to its status code and `result.id`. */
  datatype UploadResponse = UploadResponse(status: int, imageId: string)

  /** The request and the function's return value. */
  datatype Upload = Upload(request: UploadRequest, hostedUrl: Option<string>)

  /** `{base}/{id}/`: the hosted URL of image `id`. */
  function HostedUrl(baseUrl: string, imageId: string): (r: string)
    ensures |r| == |baseUrl| + |imageId| + 2
    ensures r[..|baseUrl|] == baseUrl && r[|baseUrl|] == '/'
    ensures r[|baseUrl| + 1..|r| - 1] == imageId && r[|r| - 1] == '/'
  {
    baseUrl + "/" + imageId + "/"
  }

  /** Reads the image id back out of a hosted URL. */
  function ImageIdOf(baseUrl: string, hosted: string): (id: Option<string>)
    ensures id.Some? ==> HostedUrl(baseUrl, id.value) == hosted
  {
    if |hosted| >= |baseUrl| + 2 && hosted[..|baseUrl|] == baseUrl
       && hosted[|baseUrl|] == '/' && hosted[|hosted| - 1] == '/'
    then
      var id := hosted[|baseUrl| + 1..|hosted| - 1];
      assert HostedUrl(baseUrl, id) == hosted;
      Some(id)
    else None
  }

  /** The image id is recovered from the hosted URL. */
  lemma ImageIdOfHostedUrl(baseUrl: string, imageId: string)
    ensures ImageIdOf(baseUrl, HostedUrl(baseUrl, imageId)) == Some(imageId)
  {
  }

  /**
   * `save_image_in_cloudfare`: one POST with no retry; a status other than 200
   * gives `None`, a 200 gives the hosted URL built from the configured base URL
   * and the returned image id.
   */
  function SaveImageInCloudflare(apiToken: Option<string>, accountId: Option<string>, baseUrl: Option<string>,
                                 imageUrl: string, response: UploadResponse): (u: Upload)
    ensures u.request.endpoint == UploadEndpoint(accountId)
    ensures u.request.authorization == "Bearer " + PyStr(apiToken)
    ensures u.request.imageUrl == imageUrl && u.request.requireSignedUrls == "false"
    ensures u.hostedUrl.Some? <==> response.status == 200
    ensures u.hostedUrl.Some? ==> ImageIdOf(PyStr(baseUrl), u.hostedUrl.value) == Some(response.imageId)
    ensures u.hostedUrl.Some? ==> |u.hostedUrl.value| > |PyStr(baseUrl)| && u.hostedUrl.value[..|PyStr(baseUrl)|] == PyStr(baseUrl)
    ensures u.hostedUrl.Some? ==> u.hostedUrl.value[|u.hostedUrl.value| - 1] == '/'
  {
    var request := UploadRequest(UploadEndpoint(accountId), "Bearer " + PyStr(apiToken), imageUrl, "false");
    if response.status != 200 then Upload(request, None)
    else
      ImageIdOfHostedUrl(PyStr(baseUrl), response.imageId);
      Upload(request, Some(HostedUrl(PyStr(baseUrl), response.imageId)))
  }

  /** A 200 answer with id `abc123` and a 403 answer. */
  lemma SaveImageExamples(token: Option<string>, account: Option<string>, imageUrl: string)
    ensures SaveImageInCloudflare(token, account, Some("https://imagedelivery.net/xyz"), imageUrl,
                                  UploadResponse(200, "abc123")).hostedUrl
            == Some("https://imagedelivery.net/xyz/abc123/")
    ensures SaveImageInCloudflare(token, account, Some("https://imagedelivery.net/xyz"), imageUrl,
                                  UploadResponse(403, "")).hostedUrl == None
  {
    assert HostedUrl("https://imagedelivery.net/xyz", "abc123") == "https://imagedelivery.net/xyz/abc123/";
  }
}
