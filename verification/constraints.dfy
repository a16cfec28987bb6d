/**
 * The declarative field constraints of the request models (`min_length`,
 * `max_length`, `gt`, `ge`, `le`, `min_items`, `max_items`), each giving
 * the violation it reports or none. A number constraint reports the first
 * bound it breaks, the lower bound being tried first.
 */
module Constraints {
  import opened Wrappers
  import opened Failures

  /** `min_length` / `max_length` on a string, measured in code points. */
  function LengthCheck(v: string, minLength: nat, maxLength: nat): (r: Option<Violation>)
    ensures r.None? <==> minLength <= |v| <= maxLength
    ensures r == Some(TooShort(minLength)) <==> |v| < minLength
    ensures r == Some(TooLong(maxLength)) <==> minLength <= |v| && maxLength < |v|
  {
    if |v| < minLength then Some(TooShort(minLength))
    else if |v| > maxLength then Some(TooLong(maxLength))
    else None
  }

  /** `max_length` alone, as on an optional string. */
  function MaxLengthCheck(v: string, maxLength: nat): (r: Option<Violation>)
    ensures r.None? <==> |v| <= maxLength
    ensures r.Some? ==> r.value == TooLong(maxLength)
  {
    if |v| > maxLength then Some(TooLong(maxLength)) else None
  }

  /** `gt=lower, le=upper` on a number. */
  function AboveAtMostCheck(v: real, lower: real, upper: real): (r: Option<Violation>)
    ensures r.None? <==> lower < v <= upper
    ensures r == Some(NotAbove(lower)) <==> v <= lower
  {
    if !(v > lower) then Some(NotAbove(lower))
    else if !(v <= upper) then Some(NotAtMost(upper))
    else None
  }

  /** `ge=lower, le=upper` on an integer. */
  function AtLeastAtMostCheck(v: int, lower: int, upper: int): (r: Option<Violation>)
    ensures r.None? <==> lower <= v <= upper
    ensures r == Some(NotAtLeast(lower as real)) <==> v < lower
  {
    if !(v >= lower) then Some(NotAtLeast(lower as real))
    else if !(v <= upper) then Some(NotAtMost(upper as real))
    else None
  }

  /** `min_items` / `max_items` on a list of `count` items. */
  function ItemCountCheck(count: nat, minItems: nat, maxItems: nat): (r: Option<Violation>)
    ensures r.None? <==> minItems <= count <= maxItems
    ensures r == Some(TooFewItems(minItems)) <==> count < minItems
  {
    if count < minItems then Some(TooFewItems(minItems))
    else if count > maxItems then Some(TooManyItems(maxItems))
    else None
  }

  /** The failures a check contributes at location `loc`: none or one. */
  function Report(loc: seq<LocSegment>, check: Option<Violation>): (fs: seq<FieldFailure>)
    ensures fs == [] <==> check.None?
    ensures forall f :: f in fs ==> f.loc == loc
  {
    match check
    case None => []
    case Some(v) => [FieldFailure(loc, v)]
  }

  /** A validator's outcome as a check: its `ValueError` message, if any. */
  function Raised<T>(r: Result<T, string>): (check: Option<Violation>)
    ensures check.None? <==> r.Success?
  {
    if r.Success? then None else Some(ValueError(r.error))
  }

  /** One block of failures per check, the i-th located at `locs[i]`. */
  function Reports(locs: seq<seq<LocSegment>>, checks: seq<Option<Violation>>): (blocks: seq<seq<FieldFailure>>)
    requires |locs| == |checks|
    ensures BlocksAt(blocks, locs)
    ensures forall i :: 0 <= i < |blocks| ==> (blocks[i] == [] <==> checks[i].None?)
  {
    if checks == [] then [] else [Report(locs[0], checks[0])] + Reports(locs[1..], checks[1..])
  }
}
