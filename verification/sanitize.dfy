/** The string sanitiser `sanitize_string` applied before values reach the database. */
module Sanitize {
  import opened Text

  /** The `max_length` the function defaults to, and the one `create_order` passes. */
  const DefaultMaxLength := 255

  /**
   * The value `sanitize_string(value, maxLength)` returns: NUL characters
   * removed, then cut to `maxLength` code points (with Python's slice
   * meaning for a negative bound), then stripped of surrounding whitespace.
   * The result holds no NUL, fits the bound, has no whitespace at either
   * end, never grows, and the empty string maps to the empty string.
   */
  function Sanitized(value: string, maxLength: int): (r: string)
    ensures '\0' !in r
    ensures maxLength >= 0 ==> |r| <= maxLength
    ensures Trimmed(r)
    ensures |r| <= |value|
    ensures value == [] ==> r == []
    ensures forall c :: c in r ==> c in value
  {
    if value == [] then
      []
    else
      var cleaned := RemoveAll(value, '\0');
      var cut := Prefix(cleaned, maxLength);
      assert |cut| <= |cleaned| <= |value|;
      assert '\0' !in cut;
      Strip(cut)
  }

  /** `sanitize_string`, rebinding `value` one step at a time as the source does. */
  method SanitizeString(value: string, maxLength: int) returns (r: string)
    ensures r == Sanitized(value, maxLength)
  {
    if value == [] {
      return "";
    }
    r := RemoveAll(value, '\0');
    r := Prefix(r, maxLength);
    r := Strip(r);
  }

  /** Sanitising an already sanitised value changes nothing. */
  lemma SanitizeIdempotent(value: string, maxLength: int)
    requires maxLength >= 0
    ensures Sanitized(Sanitized(value, maxLength), maxLength) == Sanitized(value, maxLength)
  {
  }

  /** A value with no NUL, within the bound and without surrounding whitespace is left alone. */
  lemma SanitizeKeepsClean(value: string, maxLength: int)
    requires '\0' !in value && |value| <= maxLength && Trimmed(value)
    ensures Sanitized(value, maxLength) == value
  {
  }
}
