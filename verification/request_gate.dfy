/**
 * The HTTP middleware that screens every request before it reaches an
 * endpoint: a URL carrying a suspicious pattern is refused with 400, a
 * declared body larger than 1 MiB with 413, and everything else is passed on.
 */
module RequestGate {
  import opened Wrappers
  import opened Text
  import opened PyInt

  /** Path traversal, script injection, SQL, NUL byte and command injection markers. */
  const SuspiciousPatterns: seq<string> :=
    ["../", "..\\", "<script", "<%", "DROP TABLE", "DELETE FROM", "\0", "cmd=", "exec("]

  /** The largest Content-Length accepted: 1 MiB. */
  const MaxBodySize := 1048576

  datatype Outcome = PassOn | Reject(status: int, detail: string)

  const BadRequest := Reject(400, "Invalid request")
  const TooLarge := Reject(413, "Request body too large")

  /** Some pattern, lower-cased, occurs in `path`. */
  predicate AnyIn(path: string, patterns: seq<string>) {
    exists k :: 0 <= k < |patterns| && Contains(path, Lower(patterns[k]))
  }

  /** Some suspicious pattern occurs in the URL, ignoring letter case. */
  predicate Suspicious(url: string) {
    AnyIn(Lower(url), SuspiciousPatterns)
  }

  /**
   * The Content-Length header is present, non-empty, reads as an integer
   * under `int()` and exceeds the limit. A header `int()` refuses is ignored.
   */
  predicate Oversized(contentLength: Option<string>) {
    match contentLength
    case None => false
    case Some(text) =>
      text != [] &&
      match ParseInt(text)
      case None => false
      case Some(size) => size > MaxBodySize
  }

  /** What the middleware does with a request, given its URL and Content-Length header. */
  function Gate(url: string, contentLength: Option<string>): Outcome {
    if Suspicious(url) then BadRequest
    else if Oversized(contentLength) then TooLarge
    else PassOn
  }

  /**
   * `validate_request`: tries the patterns in order and stops at the first
   * one found, then checks the declared body size.
   */
  method ValidateRequest(url: string, contentLength: Option<string>) returns (outcome: Outcome)
    ensures outcome == Gate(url, contentLength)
  {
    var found := FindPattern(Lower(url), SuspiciousPatterns);
    if found {
      return BadRequest;
    }
    if contentLength.Some? && contentLength.value != [] {
      var size := ParseInt(contentLength.value);
      if size.Some? && size.value > MaxBodySize {
        return TooLarge;
      }
    }
    return PassOn;
  }

  /** The pattern loop of `validate_request`: is any of `patterns`, lower-cased, in `path`? */
  method FindPattern(path: string, patterns: seq<string>) returns (found: bool)
    ensures found <==> AnyIn(path, patterns)
  {
    for k := 0 to |patterns|
      invariant forall j :: 0 <= j < k ==> !Contains(path, Lower(patterns[j]))
    {
      if Contains(path, Lower(patterns[k])) {
        return true;
      }
    }
    return false;
  }

  /** The screen ignores letter case in the URL. */
  lemma GateIgnoresCase(url: string, contentLength: Option<string>)
    ensures Gate(Lower(url), contentLength) == Gate(url, contentLength)
  {
    LowerIdempotent(url);
  }

  /**
   * A URL with any suspicious pattern, as listed, anywhere inside it is
   * refused with 400, whatever its Content-Length. (With `GateIgnoresCase`,
   * so is one holding the pattern in another letter case.)
   */
  lemma EmbeddedPatternRejected(before: string, k: nat, after: string, contentLength: Option<string>)
    requires k < |SuspiciousPatterns|
    ensures Gate(before + SuspiciousPatterns[k] + after, contentLength) == BadRequest
  {
    var p := SuspiciousPatterns[k];
    LowerConcat(before + p, after);
    LowerConcat(before, p);
    var l := Lower(before + p + after);
    assert l[|before|..|before| + |p|] == Lower(p);
    assert OccursAt(l, Lower(p), |before|);
  }

  /** In particular, a URL containing a NUL byte is refused. */
  lemma NulByteRejected(url: string, contentLength: Option<string>)
    requires '\0' in url
    ensures Gate(url, contentLength) == BadRequest
  {
    var i :| 0 <= i < |url| && url[i] == '\0';
    assert url == url[..i] + SuspiciousPatterns[6] + url[i + 1..];
    EmbeddedPatternRejected(url[..i], 6, url[i + 1..], contentLength);
  }

  /**
   * A clean URL with a plain decimal Content-Length is refused exactly when
   * the length is above 1 MiB and `int()` can read it: a length of more than
   * 4300 digits makes `int()` raise, and the request is passed on.
   */
  lemma DecimalLengthGate(url: string, size: nat)
    requires !Suspicious(url)
    ensures Gate(url, Some(Decimal(size)))
         == (if size > MaxBodySize && |Decimal(size)| <= MaxStrDigits then TooLarge else PassOn)
  {
    ParseDecimal(size);
  }

  /** A Content-Length that `int()` refuses, or a missing one, lets a clean URL through. */
  lemma UnreadableLengthPasses(url: string, contentLength: Option<string>)
    requires !Suspicious(url)
    requires contentLength.None? || ParseInt(contentLength.value).None?
    ensures Gate(url, contentLength) == PassOn
  {
  }

  /** A negative declared length never triggers the size limit. */
  lemma NegativeLengthPasses(url: string, size: nat)
    requires !Suspicious(url)
    ensures Gate(url, Some("-" + Decimal(size))) == PassOn
  {
    ParseNegativeDecimal(size);
  }
}
