/**
 * The handler that turns the framework's request-validation errors into the
 * 422 response body `{"detail": "Validation error", "errors": [...]}`.
 */
module ErrorHandler {
  import opened Failures
  import opened PyInt
  import opened Separated

  /** One entry of the framework's error list: location, message and error type. */
  datatype RawError = RawError(loc: seq<LocSegment>, msg: string, kind: string)

  /** One entry of the response's `errors` list. */
  datatype SafeError = SafeError(field: string, message: string, kind: string)

  datatype Response = Response(status: int, detail: string, errors: seq<SafeError>)

  const UnprocessableEntity := 422
  const ValidationErrorDetail := "Validation error"

  /** `str(seg)`: a field name as it is, a list position in decimal. */
  function SegmentText(seg: LocSegment): string {
    match seg
    case Key(name) => name
    case Index(position) => Decimal(position)
  }

  function SegmentTexts(loc: seq<LocSegment>): (ts: seq<string>)
    ensures |ts| == |loc|
    ensures forall k :: 0 <= k < |loc| ==> ts[k] == SegmentText(loc[k])
  {
    seq(|loc|, k requires 0 <= k < |loc| => SegmentText(loc[k]))
  }

  /** The location after its first segment (`loc[1:]`, empty for an empty location). */
  function Inner(loc: seq<LocSegment>): seq<LocSegment> {
    if loc == [] then [] else loc[1..]
  }

  /** The `field` of a safe error: the location after its first segment, joined with '.'. */
  function FieldPath(loc: seq<LocSegment>): string {
    JoinWith(SegmentTexts(Inner(loc)), '.')
  }

  function Safe(e: RawError): SafeError {
    SafeError(FieldPath(e.loc), e.msg, e.kind)
  }

  /**
   * `validation_exception_handler`: status 422, detail "Validation error",
   * and one safe error per framework error, in the same order, each with
   * the error's message and type and the dotted path of its location.
   */
  method HandleValidationError(errors: seq<RawError>) returns (response: Response)
    ensures response.status == UnprocessableEntity && response.detail == ValidationErrorDetail
    ensures |response.errors| == |errors|
    ensures forall i :: 0 <= i < |errors| ==> response.errors[i] == Safe(errors[i])
  {
    var safeErrors: seq<SafeError> := [];
    for i := 0 to |errors|
      invariant |safeErrors| == i
      invariant forall k :: 0 <= k < i ==> safeErrors[k] == Safe(errors[k])
    {
      var error := errors[i];
      safeErrors := safeErrors + [SafeError(FieldPath(error.loc), error.msg, error.kind)];
    }
    response := Response(UnprocessableEntity, ValidationErrorDetail, safeErrors);
  }

  /** No segment name contains '.', so the dotted path can be read back. */
  predicate PlainNames(loc: seq<LocSegment>) {
    forall k :: 0 <= k < |loc| ==> loc[k].Key? ==> '.' !in loc[k].name
  }

  /**
   * When the location has at least two segments and no field name contains
   * '.', splitting the `field` on '.' gives back the text of every segment
   * after the first: the path loses nothing.
   */
  lemma FieldPathRecoversLocation(loc: seq<LocSegment>)
    requires |loc| >= 2 && PlainNames(loc)
    ensures SplitOn(FieldPath(loc), '.') == SegmentTexts(loc[1..])
  {
    var ts := SegmentTexts(loc[1..]);
    forall k | 0 <= k < |ts| ensures '.' !in ts[k] {
      if loc[1..][k].Index? {
        var d := Decimal(loc[1..][k].position);
        assert forall i :: 0 <= i < |d| ==> d[i] != '.';
      }
    }
    SplitJoinWith(ts, '.');
  }

  /**
   * The framework puts a request-body failure under "body"; the handler's
   * `field` is then the failure's own location inside the body.
   */
  lemma BodyFailureField(f: FieldFailure, msg: string, kind: string)
    ensures Safe(RawError([Key("body")] + f.loc, msg, kind)).field == JoinWith(SegmentTexts(f.loc), '.')
  {
    assert Inner([Key("body")] + f.loc) == f.loc;
  }
}
