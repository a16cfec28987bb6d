/**
 * Python's `str(n)` for natural numbers and `int(s)` for base-10 text, as the
 * request gate applies it to the Content-Length header.
 */
module PyInt {
  import opened Wrappers
  import opened Text

  predicate IsDigit(c: char) {
    '0' <= c <= '9'
  }

  function DigitValue(c: char): nat
    requires IsDigit(c)
  {
    c as int - '0' as int
  }

  function DigitChar(d: nat): (c: char)
    requires d < 10
    ensures IsDigit(c) && DigitValue(c) == d
  {
    ('0' as int + d) as char
  }

  /** `str(n)`: the decimal digits of `n`, with no leading zero unless `n` is 0. */
  function Decimal(n: nat): (s: string)
    ensures s != [] && forall i :: 0 <= i < |s| ==> IsDigit(s[i])
    ensures s[0] == '0' <==> n == 0
  {
    if n < 10 then [DigitChar(n)] else Decimal(n / 10) + [DigitChar(n % 10)]
  }

  /**
   * The whitespace `int()` skips before and after the number. Code points
   * below 127 are tested with C's ASCII `isspace`, so U+001C..U+001F, which
   * `str.isspace()` accepts, are not skipped; every other Unicode whitespace
   * code point is.
   */
  predicate IntSpace(c: char) {
    IsSpace(c) && !('\U{1C}' <= c <= '\U{1F}')
  }

  function DropIntSpace(s: string): (r: string)
    ensures r == [] || !IntSpace(r[0])
  {
    if s != [] && IntSpace(s[0]) then DropIntSpace(s[1..]) else s
  }

  function DropIntSpaceRight(s: string): (r: string)
    ensures r == [] || !IntSpace(r[|r| - 1])
  {
    if s != [] && IntSpace(s[|s| - 1]) then DropIntSpaceRight(s[..|s| - 1]) else s
  }

  /**
   * The digit part `int()` accepts: digits, where a single '_' may stand
   * between two digits.
   */
  predicate WellFormedDigits(b: string) {
    && b != []
    && IsDigit(b[0])
    && IsDigit(b[|b| - 1])
    && (forall i :: 0 <= i < |b| ==> IsDigit(b[i]) || b[i] == '_')
    && (forall i :: 0 <= i < |b| - 1 && b[i] == '_' ==> IsDigit(b[i + 1]))
  }

  /** The number a digit part stands for; underscores carry no value. */
  function DigitsValue(b: string): nat
    requires forall i :: 0 <= i < |b| ==> IsDigit(b[i]) || b[i] == '_'
  {
    if b == [] then 0
    else if b[|b| - 1] == '_' then DigitsValue(b[..|b| - 1])
    else DigitsValue(b[..|b| - 1]) * 10 + DigitValue(b[|b| - 1])
  }

  /**
   * The most digits `int()` reads in base 10: the default of
   * `sys.set_int_max_str_digits` (Python 3.11, and the 3.10.7 and 3.9.14
   * security releases). Longer digit strings raise `ValueError`.
   */
  const MaxStrDigits := 4300

  /** The number of digits in `b`; underscores are not counted. */
  function DigitCount(b: string): (k: nat)
    ensures k <= |b|
    ensures (forall i :: 0 <= i < |b| ==> IsDigit(b[i])) ==> k == |b|
  {
    if b == [] then 0 else DigitCount(b[..|b| - 1]) + (if IsDigit(b[|b| - 1]) then 1 else 0)
  }

  /**
   * `int(s)`: surrounding whitespace, an optional sign and a well-formed
   * digit part of at most 4300 digits; `None` where Python raises
   * `ValueError`.
   */
  function ParseInt(s: string): Option<int> {
    ParseSigned(DropIntSpaceRight(DropIntSpace(s)))
  }

  /** A digit part `int()` reads: well formed and within the digit limit. */
  predicate Readable(b: string) {
    WellFormedDigits(b) && DigitCount(b) <= MaxStrDigits
  }

  /** An optional sign followed by a readable digit part, and nothing else. */
  function ParseSigned(t: string): Option<int> {
    if t != [] && (t[0] == '+' || t[0] == '-') then
      var b := t[1..];
      if Readable(b) then
        var v: int := DigitsValue(b);
        Some(if t[0] == '-' then -v else v)
      else
        None
    else if Readable(t) then
      Some(DigitsValue(t))
    else
      None
  }

  /** `int(str(n)) == n` up to 4300 digits; past them `int()` raises. */
  lemma ParseDecimal(n: nat)
    ensures ParseInt(Decimal(n)) == if |Decimal(n)| <= MaxStrDigits then Some(n) else None
  {
    var s := Decimal(n);
    NoSpaceAroundDigits(s);
    DecimalValue(n);
    DigitsReadable(s);
    ParseDigitsOnly(s);
  }

  /** `int('-' + str(n)) == -n` up to 4300 digits; past them `int()` raises. */
  lemma ParseNegativeDecimal(n: nat)
    ensures ParseInt("-" + Decimal(n)) == if |Decimal(n)| <= MaxStrDigits then Some(-(n as int)) else None
  {
    var d := Decimal(n);
    var s := "-" + d;
    NoSpaceAroundDigits(s);
    DecimalValue(n);
    DigitsReadable(d);
    ParseMinusDigits(d);
  }

  /** A digit part alone reads as its value when it is readable, and raises otherwise. */
  lemma ParseDigitsOnly(d: string)
    requires d != [] && IsDigit(d[0])
    ensures ParseSigned(d) == if Readable(d) then Some(DigitsValue(d) as int) else None
  {
  }

  /** '-' and a digit part read as the negated value when the part is readable, and raise otherwise. */
  lemma ParseMinusDigits(d: string)
    ensures ParseSigned("-" + d) == if Readable(d) then Some(-(DigitsValue(d) as int)) else None
  {
    assert ("-" + d)[1..] == d;
  }

  /** A text of digits only is well formed, and each of its code points counts towards the limit. */
  lemma DigitsReadable(s: string)
    requires s != [] && forall i :: 0 <= i < |s| ==> IsDigit(s[i])
    ensures WellFormedDigits(s) && DigitCount(s) == |s|
  {
  }

  lemma NoSpaceAroundDigits(s: string)
    requires s != [] && '!' <= s[0] <= '~' && IsDigit(s[|s| - 1])
    ensures DropIntSpaceRight(DropIntSpace(s)) == s
  {
    VisibleIsNotSpace(s[0]);
    VisibleIsNotSpace(s[|s| - 1]);
  }

  lemma {:induction false} DecimalValue(n: nat)
    ensures DigitsValue(Decimal(n)) == n
    decreases n
  {
    if n >= 10 {
      var s := Decimal(n);
      DecimalValue(n / 10);
      assert s[..|s| - 1] == Decimal(n / 10);
    }
  }
}
