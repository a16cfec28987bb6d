/**
 * Python's `str.split(d)` and `d.join(parts)` for a one-character separator
 * `d`: the error handler joins location segments with '.', and the e-mail
 * validator takes `v.split('@')[1]`.
 */
module Separated {

  /**
   * `s.split(d)`: the pieces of `s` between occurrences of `d`. There is one
   * piece more than there are separators, so there are at least two exactly
   * when `d` occurs.
   */
  function SplitOn(s: string, d: char): (parts: seq<string>)
    ensures |parts| >= 1
    ensures forall k :: 0 <= k < |parts| ==> d !in parts[k]
    ensures d in s <==> |parts| >= 2
  {
    if s == [] then
      [[]]
    else
      var rest := SplitOn(s[1..], d);
      assert d in s <==> s[0] == d || d in s[1..] by { assert s == [s[0]] + s[1..]; }
      if s[0] == d then [[]] + rest else [[s[0]] + rest[0]] + rest[1..]
  }

  /** `d.join(parts)` */
  function JoinWith(parts: seq<string>, d: char): string {
    if parts == [] then [] else if |parts| == 1 then parts[0] else parts[0] + [d] + JoinWith(parts[1..], d)
  }

  /** Joining the pieces of a split restores the string. */
  lemma {:induction false} JoinSplit(s: string, d: char)
    ensures JoinWith(SplitOn(s, d), d) == s
    decreases |s|
  {
    if s != [] {
      var rest := SplitOn(s[1..], d);
      JoinSplit(s[1..], d);
      if s[0] == d {
        assert SplitOn(s, d) == [[]] + rest;
        assert ([[]] + rest)[1..] == rest;
      } else {
        var parts := [[s[0]] + rest[0]] + rest[1..];
        assert SplitOn(s, d) == parts;
        if |rest| == 1 {
          assert s == [s[0]] + s[1..];
        } else {
          assert parts[1..] == rest[1..];
          assert JoinWith(rest, d) == rest[0] + [d] + JoinWith(rest[1..], d);
          assert s == [s[0]] + s[1..];
        }
      }
    }
  }

  /** A piece free of the separator, followed by the separator, is split off. */
  lemma {:induction false} SplitOnPiece(w: string, x: string, d: char)
    requires d !in w
    ensures SplitOn(w + [d] + x, d) == [w] + SplitOn(x, d)
    decreases |w|
  {
    if w == [] {
      assert [] + [d] + x == [d] + x;
      assert ([d] + x)[1..] == x;
    } else {
      assert (w + [d] + x)[1..] == w[1..] + [d] + x;
      SplitOnPiece(w[1..], x, d);
      assert [w[0]] + w[1..] == w;
    }
  }

  /** A string free of the separator is a single piece. */
  lemma {:induction false} SplitOnWhole(w: string, d: char)
    requires d !in w
    ensures SplitOn(w, d) == [w]
    decreases |w|
  {
    if w != [] {
      SplitOnWhole(w[1..], d);
      assert [w[0]] + w[1..] == w;
    }
  }

  /** Splitting a join of separator-free pieces gives the pieces back. */
  lemma {:induction false} SplitJoinWith(parts: seq<string>, d: char)
    requires |parts| >= 1
    requires forall k :: 0 <= k < |parts| ==> d !in parts[k]
    ensures SplitOn(JoinWith(parts, d), d) == parts
    decreases |parts|
  {
    if |parts| == 1 {
      SplitOnWhole(parts[0], d);
    } else {
      SplitJoinWith(parts[1..], d);
      SplitOnPiece(parts[0], JoinWith(parts[1..], d), d);
      assert parts == [parts[0]] + parts[1..];
    }
  }
}
