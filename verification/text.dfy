/**
 * Python string primitives used by the validation layer, on `string`
 * (a sequence of Unicode scalar values, as Python's `str` is a sequence of
 * code points).
 */
module Text {

  /**
   * The code points for which Python's `str.isspace()` holds: the set that
   * `str.split()`, `str.strip()` and the regular-expression class `\s` treat
   * as whitespace. They are U+0009..U+000D, U+001C..U+0020, U+0085, U+00A0,
   * U+1680, U+2000..U+200A, U+2028, U+2029, U+202F, U+205F and U+3000.
   */
  predicate IsSpace(c: char) {
    var n := c as int;
    || 0x09 <= n <= 0x0D || 0x1C <= n <= 0x20 || n == 0x85 || n == 0xA0 || n == 0x1680
    || 0x2000 <= n <= 0x200A || n == 0x2028 || n == 0x2029 || n == 0x202F || n == 0x205F || n == 0x3000
  }

  /** The ASCII space is whitespace. */
  lemma BlankIsSpace()
    ensures IsSpace(' ')
  {
  }

  /** No visible ASCII character ('!' to '~') is whitespace. */
  lemma VisibleIsNotSpace(c: char)
    requires '!' <= c <= '~'
    ensures !IsSpace(c)
  {
  }

  predicate AllSpace(s: string) {
    forall i :: 0 <= i < |s| ==> IsSpace(s[i])
  }

  /** No whitespace at either end. */
  predicate Trimmed(s: string) {
    s == [] || (!IsSpace(s[0]) && !IsSpace(s[|s| - 1]))
  }

  /** The number of leading whitespace code points of `s`. */
  function LeadingSpaces(s: string): (n: nat)
    ensures n <= |s| && AllSpace(s[..n])
    ensures n < |s| ==> !IsSpace(s[n])
  {
    if s != [] && IsSpace(s[0]) then
      var n := 1 + LeadingSpaces(s[1..]);
      assert s[..n] == [s[0]] + s[1..][..n - 1];
      n
    else
      0
  }

  /** The length of `s` once its trailing whitespace is cut off. */
  function ContentEnd(s: string): (n: nat)
    ensures n <= |s| && AllSpace(s[n..])
    ensures n > 0 ==> !IsSpace(s[n - 1])
  {
    if s != [] && IsSpace(s[|s| - 1]) then
      var n := ContentEnd(s[..|s| - 1]);
      assert s[n..] == s[..|s| - 1][n..] + [s[|s| - 1]];
      n
    else
      |s|
  }

  /** `s.lstrip()` */
  function TrimLeft(s: string): string {
    s[LeadingSpaces(s)..]
  }

  /** `r` is the slice of `s` left after dropping whitespace-only ends. */
  ghost predicate IsStripOf(r: string, s: string) {
    exists i :: 0 <= i <= |s| - |r| && r == s[i..i + |r|] && AllSpace(s[..i]) && AllSpace(s[i + |r|..])
  }

  /** `s.strip()` */
  function Strip(s: string): (r: string)
    ensures Trimmed(r) && IsStripOf(r, s)
    ensures r == [] <==> AllSpace(s)
    ensures Trimmed(s) ==> r == s
    ensures |r| <= |s| && forall c :: c in r ==> c in s
  {
    var i, j := LeadingSpaces(s), ContentEnd(s);
    if i == |s| then
      StripBlank(s);
      []
    else
      StripContent(s, i, j);
      s[i..j]
  }

  /** Text whose leading whitespace runs to its end is whitespace only, and strips to nothing. */
  lemma StripBlank(s: string)
    requires AllSpace(s[..|s|])
    ensures AllSpace(s) && IsStripOf([], s)
    ensures Trimmed(s) ==> s == []
  {
    assert s[..|s|] == s;
    assert s[|s|..] == [];
    assert [] == s[|s|..|s|];
  }

  /** The slice between whitespace-only ends `s[..i]` and `s[j..]`, where `s[i]` is not whitespace. */
  lemma StripContent(s: string, i: nat, j: nat)
    requires i < |s| && j <= |s| && !IsSpace(s[i])
    requires AllSpace(s[..i]) && AllSpace(s[j..]) && (j > 0 ==> !IsSpace(s[j - 1]))
    ensures i < j && Trimmed(s[i..j]) && IsStripOf(s[i..j], s)
    ensures !AllSpace(s) && (Trimmed(s) ==> s[i..j] == s)
    ensures forall c :: c in s[i..j] ==> c in s
  {
    SpaceIndices(s, i, j);
    var r := s[i..j];
    assert r[0] == s[i] && r[|r| - 1] == s[j - 1];
    assert s[i + |r|..] == s[j..];
    assert IsStripOf(r, s);
    forall c | c in r ensures c in s {
      var k :| 0 <= k < |r| && r[k] == c;
      assert s[i + k] == c;
    }
  }

  /** Whitespace-only `s[..i]` and `s[j..]`, position by position. */
  lemma SpaceIndices(s: string, i: nat, j: nat)
    requires i <= |s| && j <= |s| && AllSpace(s[..i]) && AllSpace(s[j..])
    ensures forall k :: 0 <= k < i ==> IsSpace(s[k])
    ensures forall k :: j <= k < |s| ==> IsSpace(s[k])
  {
    forall k | 0 <= k < i ensures IsSpace(s[k]) {
      assert s[..i][k] == s[k];
    }
    forall k | j <= k < |s| ensures IsSpace(s[k]) {
      assert s[j..][k - j] == s[k];
    }
  }

  /** Python's `str.lower()` on one code point, for ASCII (see the README). */
  function LowerChar(c: char): char {
    if 'A' <= c <= 'Z' then (c as int + 32) as char else c
  }

  /** `s.lower()`, code point by code point. */
  function Lower(s: string): (r: string)
    ensures |r| == |s|
    ensures forall i :: 0 <= i < |s| ==> r[i] == LowerChar(s[i])
  {
    if s == [] then [] else [LowerChar(s[0])] + Lower(s[1..])
  }

  lemma LowerIdempotent(s: string)
    ensures Lower(Lower(s)) == Lower(s)
  {
  }

  lemma LowerConcat(a: string, b: string)
    ensures Lower(a + b) == Lower(a) + Lower(b)
  {
  }

  predicate OccursAt(s: string, p: string, i: int) {
    0 <= i && i + |p| <= |s| && s[i..i + |p|] == p
  }

  /** Python's `p in s` for strings: `p` occurs as a contiguous slice of `s`. */
  function Contains(s: string, p: string): (b: bool)
    ensures b <==> exists i :: OccursAt(s, p, i)
    decreases |s|
  {
    if |p| > |s| then
      false
    else if s[..|p|] == p then
      assert OccursAt(s, p, 0);
      true
    else
      assert forall i :: OccursAt(s[1..], p, i) <==> OccursAt(s, p, i + 1);
      assert forall i :: OccursAt(s, p, i) ==> OccursAt(s[1..], p, i - 1);
      Contains(s[1..], p)
  }

  predicate StartsWith(s: string, p: string) {
    |p| <= |s| && s[..|p|] == p
  }

  predicate EndsWith(s: string, p: string) {
    |p| <= |s| && s[|s| - |p|..] == p
  }

  /** `s.replace(c, '')` for a single character `c`. */
  function RemoveAll(s: string, c: char): (r: string)
    ensures |r| <= |s|
    ensures forall x :: x in r <==> x in s && x != c
    ensures c !in s ==> r == s
  {
    if s == [] then [] else (if s[0] == c then [] else [s[0]]) + RemoveAll(s[1..], c)
  }

  lemma AppendAssoc<T>(x: seq<T>, y: seq<T>, z: seq<T>)
    ensures x + (y + z) == (x + y) + z
  {
  }

  /** Removing `c` from a concatenation removes it from each part: the kept code points stay in order. */
  lemma {:induction false} RemoveAllConcat(a: string, b: string, c: char)
    ensures RemoveAll(a + b, c) == RemoveAll(a, c) + RemoveAll(b, c)
    decreases |a|
  {
    if a == [] {
      assert a + b == b;
    } else {
      var head := if a[0] == c then [] else [a[0]];
      assert (a + b)[0] == a[0];
      assert (a + b)[1..] == a[1..] + b;
      calc {
        RemoveAll(a + b, c);
        head + RemoveAll(a[1..] + b, c);
        { RemoveAllConcat(a[1..], b, c); }
        head + (RemoveAll(a[1..], c) + RemoveAll(b, c));
        { AppendAssoc(head, RemoveAll(a[1..], c), RemoveAll(b, c)); }
        RemoveAll(a, c) + RemoveAll(b, c);
      }
    }
  }

  /** A single code point is dropped if it is `c` and kept otherwise. */
  lemma RemoveAllOne(x: char, c: char)
    ensures RemoveAll([x], c) == if x == c then [] else [x]
  {
  }

  /** Removal keeps every code point other than `c`, each as often as in `s`. */
  lemma {:induction false} RemoveAllCounts(s: string, c: char)
    ensures multiset(RemoveAll(s, c)) == multiset(s)[c := 0]
    decreases |s|
  {
    if s != [] {
      RemoveAllCounts(s[1..], c);
      assert s == [s[0]] + s[1..];
    }
  }

  /** Python's slice `s[:n]`; a negative `n` counts from the end. */
  function Prefix(s: string, n: int): (r: string)
    ensures |r| <= |s| && r == s[..|r|]
    ensures forall c :: c in r ==> c in s
    ensures n >= 0 ==> |r| == if n < |s| then n else |s|
    ensures n < 0 ==> |r| == if |s| + n > 0 then |s| + n else 0
  {
    if n >= 0 then (if n < |s| then s[..n] else s)
    else (if |s| + n > 0 then s[..|s| + n] else [])
  }
}
