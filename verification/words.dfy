/**
 * Python's `str.split()` with no argument and `' '.join(...)`, and the
 * whitespace-collapsing idiom `' '.join(v.split())` that the name and
 * menu-text validators apply.
 */
module PyWords {
  import opened Text

  /** A non-empty run of non-whitespace code points. */
  predicate IsWord(w: string) {
    w != [] && forall i :: 0 <= i < |w| ==> !IsSpace(w[i])
  }

  predicate AllWords(ws: seq<string>) {
    forall k :: 0 <= k < |ws| ==> IsWord(ws[k])
  }

  /**
   * Whitespace appears only as single ' ' characters between two
   * non-whitespace characters: none leading, trailing or doubled.
   */
  predicate SingleSpaced(r: string) {
    && Trimmed(r)
    && (forall i :: 0 <= i < |r| && IsSpace(r[i]) ==> r[i] == ' ')
    && (forall i :: 0 <= i < |r| - 1 && IsSpace(r[i]) ==> !IsSpace(r[i + 1]))
  }

  /** The non-whitespace code points of `s`, in order. */
  function NonSpace(s: string): string
  {
    if s == [] then [] else (if IsSpace(s[0]) then [] else [s[0]]) + NonSpace(s[1..])
  }

  function Concat(ws: seq<string>): string {
    if ws == [] then [] else ws[0] + Concat(ws[1..])
  }

  /** The length of the longest whitespace-free prefix of `s`. */
  function WordEnd(s: string): (n: nat)
    ensures n <= |s|
    ensures forall i :: 0 <= i < n ==> !IsSpace(s[i])
    ensures n < |s| ==> IsSpace(s[n])
  {
    if s == [] || IsSpace(s[0]) then 0 else 1 + WordEnd(s[1..])
  }

  /**
   * `s.split()`: the maximal whitespace-free runs of `s`, in order; together
   * they hold exactly the non-whitespace code points of `s`.
   */
  function SplitWords(s: string): (ws: seq<string>)
    ensures AllWords(ws)
    ensures ws == [] <==> AllSpace(s)
    ensures Concat(ws) == NonSpace(s)
    decreases |s|
  {
    var t := TrimLeft(s);
    if t == [] then
      SplitWordsEnd(s);
      []
    else
      var n := WordEnd(t);
      assert n >= 1 by { assert t[0] == s[LeadingSpaces(s)]; }
      var tail := SplitWords(t[n..]);
      SplitWordsStep(s, t, n, tail);
      [t[..n]] + tail
  }

  lemma SplitWordsEnd(s: string)
    requires TrimLeft(s) == []
    ensures AllSpace(s) && NonSpace(s) == []
  {
    assert s[..|s|] == s;
    NonSpaceOfSpaces(s);
  }

  /** `' '.join(ws)` */
  function JoinSpace(ws: seq<string>): string {
    if ws == [] then [] else if |ws| == 1 then ws[0] else ws[0] + " " + JoinSpace(ws[1..])
  }

  /**
   * `' '.join(s.split())`: the words of `s` separated by single spaces. It
   * keeps the words of `s`, leaves no leading, trailing or doubled
   * whitespace, never grows the string, and is empty exactly when `s` is
   * whitespace only.
   */
  function CollapseSpaces(s: string): (r: string)
    ensures SingleSpaced(r)
    ensures SplitWords(r) == SplitWords(s)
    ensures NonSpace(r) == NonSpace(s)
    ensures |r| <= |s|
    ensures r == [] <==> AllSpace(s)
    ensures forall i :: 0 <= i < |r| ==> r[i] == ' ' || r[i] in s
  {
    CollapseShape(s);
    CollapseLength(s);
    JoinSpace(SplitWords(s))
  }

  lemma CollapseShape(s: string)
    ensures var r := JoinSpace(SplitWords(s));
      && SingleSpaced(r)
      && SplitWords(r) == SplitWords(s)
      && NonSpace(r) == NonSpace(s)
      && (r == [] <==> AllSpace(s))
      && forall i :: 0 <= i < |r| ==> r[i] == ' ' || r[i] in s
  {
    var ws := SplitWords(s);
    var r := JoinSpace(ws);
    JoinSingleSpaced(ws);
    SplitJoin(ws);
    assert NonSpace(r) == Concat(ws);
    KeptChars(s, r);
  }

  lemma CollapseLength(s: string)
    ensures |JoinSpace(SplitWords(s))| <= |s|
  {
    CollapseBound(s);
  }

  lemma KeptChars(s: string, r: string)
    requires SingleSpaced(r) && NonSpace(r) == NonSpace(s)
    ensures forall i :: 0 <= i < |r| ==> r[i] == ' ' || r[i] in s
  {
    forall i | 0 <= i < |r| ensures r[i] == ' ' || r[i] in s {
      if !IsSpace(r[i]) {
        NonSpaceKeeps(r, r[i]);
        NonSpaceKeeps(s, r[i]);
      }
    }
  }

  /** Collapsing twice is collapsing once. */
  lemma CollapseIdempotent(s: string)
    ensures CollapseSpaces(CollapseSpaces(s)) == CollapseSpaces(s)
  {
  }

  /** Single-spaced text is its own collapse. */
  lemma {:induction false} CollapseFixesSingleSpaced(v: string)
    requires SingleSpaced(v)
    ensures JoinSpace(SplitWords(v)) == v
    decreases |v|
  {
    if v != [] {
      var n := WordEnd(v);
      if n == |v| {
        SingleWordFixed(v);
      } else {
        SingleSpacedTail(v, n);
        CollapseFixesSingleSpaced(v[n + 1..]);
        WordThenTailFixed(v, n);
      }
    }
  }

  lemma SingleWordFixed(v: string)
    requires v != [] && WordEnd(v) == |v|
    ensures JoinSpace(SplitWords(v)) == v
  {
    assert IsWord(v);
    assert v == v + [];
    SplitOfWordThen(v, []);
  }

  lemma WordThenTailFixed(v: string, n: nat)
    requires SingleSpaced(v) && n == WordEnd(v) && n + 1 < |v|
    requires v[n + 1..] != [] && !IsSpace(v[n + 1]) && JoinSpace(SplitWords(v[n + 1..])) == v[n + 1..]
    ensures JoinSpace(SplitWords(v)) == v
  {
    assert !IsSpace(v[0]) && v[n] == ' ';
    WordPrefix(v, n);
    SplitAround(v, n);
    CollapseWordThenTail(v[..n], v[n + 1..]);
  }

  /** The text before the first whitespace of `v` is a word. */
  lemma WordPrefix(v: string, n: nat)
    requires n == WordEnd(v) && n < |v| && !IsSpace(v[0])
    ensures IsWord(v[..n])
  {
    var w := v[..n];
    forall i | 0 <= i < |w| ensures !IsSpace(w[i]) {
      assert w[i] == v[i];
    }
  }

  /** `v` is its text before `n`, the space at `n`, and its text after. */
  lemma SplitAround(v: string, n: nat)
    requires n < |v| && v[n] == ' '
    ensures v == v[..n] + " " + v[n + 1..]
  {
    assert v == v[..n] + v[n..];
    assert v[n..] == " " + v[n + 1..];
  }

  lemma CollapseWordThenTail(w: string, tail: string)
    requires IsWord(w) && tail != [] && !IsSpace(tail[0]) && JoinSpace(SplitWords(tail)) == tail
    ensures JoinSpace(SplitWords(w + " " + tail)) == w + " " + tail
  {
    SplitJoinStep(w, tail, SplitWords(tail));
    JoinCons(w, SplitWords(tail));
  }

  lemma JoinCons(w: string, ws: seq<string>)
    requires ws != []
    ensures JoinSpace([w] + ws) == w + " " + JoinSpace(ws)
  {
    assert ([w] + ws)[1..] == ws;
  }

  lemma SingleSpacedTail(v: string, n: nat)
    requires SingleSpaced(v) && n < |v| && IsSpace(v[n])
    ensures n + 1 < |v| && !IsSpace(v[n + 1])
    ensures SingleSpaced(v[n + 1..]) && v[n + 1..] != []
  {
    assert n < |v| - 1;
    var tail := v[n + 1..];
    assert tail[0] == v[n + 1] && tail[|tail| - 1] == v[|v| - 1];
    forall i | 0 <= i < |tail| - 1 && IsSpace(tail[i]) ensures !IsSpace(tail[i + 1]) {
      assert tail[i] == v[n + 1 + i] && tail[i + 1] == v[n + 2 + i];
    }
    forall i | 0 <= i < |tail| && IsSpace(tail[i]) ensures tail[i] == ' ' {
      assert tail[i] == v[n + 1 + i];
    }
  }

  // ---- proofs ----

  lemma {:induction false} NonSpaceAppend(a: string, b: string)
    ensures NonSpace(a + b) == NonSpace(a) + NonSpace(b)
    decreases |a|
  {
    if a != [] {
      var head := if IsSpace(a[0]) then [] else [a[0]];
      assert (a + b)[0] == a[0];
      assert (a + b)[1..] == a[1..] + b;
      NonSpaceAppend(a[1..], b);
      calc {
        NonSpace(a + b);
        head + NonSpace(a[1..] + b);
        head + (NonSpace(a[1..]) + NonSpace(b));
        (head + NonSpace(a[1..])) + NonSpace(b);
        NonSpace(a) + NonSpace(b);
      }
    } else {
      assert a + b == b;
    }
  }

  /** A code point is among the non-whitespace ones of `s` exactly when it is a non-whitespace one in `s`. */
  lemma {:induction false} NonSpaceKeeps(s: string, c: char)
    ensures c in NonSpace(s) <==> c in s && !IsSpace(c)
    decreases |s|
  {
    if s != [] {
      NonSpaceKeeps(s[1..], c);
      assert s == [s[0]] + s[1..];
    }
  }

  lemma {:induction false} NonSpaceOfSpaces(s: string)
    requires AllSpace(s)
    ensures NonSpace(s) == []
    decreases |s|
  {
    if s != [] {
      NonSpaceOfSpaces(s[1..]);
    }
  }

  lemma {:induction false} NonSpaceOfWord(w: string)
    requires forall i :: 0 <= i < |w| ==> !IsSpace(w[i])
    ensures NonSpace(w) == w
    decreases |w|
  {
    if w != [] {
      NonSpaceOfWord(w[1..]);
    }
  }

  lemma SplitWordsStep(s: string, t: string, n: nat, tail: seq<string>)
    requires t == TrimLeft(s) && t != [] && n == WordEnd(t)
    requires AllWords(tail) && Concat(tail) == NonSpace(t[n..])
    ensures AllWords([t[..n]] + tail) && !AllSpace(s)
    ensures Concat([t[..n]] + tail) == NonSpace(s)
  {
    var a := LeadingSpaces(s);
    assert t[0] == s[a];
    NonSpaceDropSpaces(s, a);
    NonSpaceSplitWord(t, n);
    var ws := [t[..n]] + tail;
    assert ws[0] == t[..n] && ws[1..] == tail;
  }

  lemma NonSpaceDropSpaces(s: string, a: nat)
    requires a <= |s| && AllSpace(s[..a])
    ensures NonSpace(s) == NonSpace(s[a..])
  {
    assert s == s[..a] + s[a..];
    NonSpaceAppend(s[..a], s[a..]);
    NonSpaceOfSpaces(s[..a]);
  }

  lemma NonSpaceSplitWord(t: string, n: nat)
    requires n <= |t| && forall i :: 0 <= i < n ==> !IsSpace(t[i])
    ensures NonSpace(t) == t[..n] + NonSpace(t[n..])
  {
    assert t == t[..n] + t[n..];
    NonSpaceAppend(t[..n], t[n..]);
    NonSpaceOfWord(t[..n]);
  }

  /** A word followed by whitespace (or nothing) is split off whole. */
  lemma {:induction false} WordEndOfWord(w: string, rest: string)
    requires IsWord(w) && (rest == [] || IsSpace(rest[0]))
    ensures WordEnd(w + rest) == |w|
    decreases |w|
  {
    if |w| > 1 {
      assert (w + rest)[1..] == w[1..] + rest;
      WordEndOfWord(w[1..], rest);
    }
  }

  /** Leading whitespace produces no word. */
  lemma SplitAfterSpace(c: char, x: string)
    requires IsSpace(c)
    ensures SplitWords([c] + x) == SplitWords(x)
  {
    assert TrimLeft([c] + x) == TrimLeft(x) by {
      assert ([c] + x)[1..] == x;
    }
  }

  /**
   * A whitespace code point separates words: the words of `a`, then those
   * of `b`. With `SplitWordsOfWord` this pins `split()` to the maximal
   * whitespace-free runs.
   */
  lemma {:induction false} SplitWordsAtSpace(a: string, c: char, b: string)
    requires IsSpace(c)
    ensures SplitWords(a + [c] + b) == SplitWords(a) + SplitWords(b)
    decreases |a|
  {
    if a == [] {
      assert a + [c] + b == [c] + b;
      SplitAfterSpace(c, b);
    } else if IsSpace(a[0]) {
      SplitWordsAtSpace(a[1..], c, b);
      LeadingSpaceStep(a, c, b);
    } else {
      var n := WordEnd(a);
      var w, rest := a[..n], a[n..];
      WordBefore(a, n);
      SplitWordsAtSpace(rest, c, b);
      WordThenSpaceStep(w, rest, c, b);
    }
  }

  lemma LeadingSpaceStep(a: string, c: char, b: string)
    requires a != [] && IsSpace(a[0]) && IsSpace(c)
    requires SplitWords(a[1..] + [c] + b) == SplitWords(a[1..]) + SplitWords(b)
    ensures SplitWords(a + [c] + b) == SplitWords(a) + SplitWords(b)
  {
    var rest := a[1..];
    Uncons(a, c, b);
    calc {
      SplitWords(a + [c] + b);
      SplitWords([a[0]] + (rest + [c] + b));
      { SplitAfterSpace(a[0], rest + [c] + b); }
      SplitWords(rest + [c] + b);
      SplitWords(rest) + SplitWords(b);
      { SplitAfterSpace(a[0], rest); }
      SplitWords([a[0]] + rest) + SplitWords(b);
      SplitWords(a) + SplitWords(b);
    }
  }

  /** `a` as its first code point and the rest, carried through `a + [c] + b`. */
  lemma Uncons(a: string, c: char, b: string)
    requires a != []
    ensures a == [a[0]] + a[1..]
    ensures a + [c] + b == [a[0]] + (a[1..] + [c] + b)
  {
  }

  lemma WordThenSpaceStep(w: string, rest: string, c: char, b: string)
    requires IsWord(w) && (rest == [] || IsSpace(rest[0])) && IsSpace(c)
    requires SplitWords(rest + [c] + b) == SplitWords(rest) + SplitWords(b)
    ensures SplitWords(w + rest + [c] + b) == SplitWords(w + rest) + SplitWords(b)
  {
    var after := rest + [c] + b;
    Regroup(w, rest, c, b);
    calc {
      SplitWords(w + rest + [c] + b);
      SplitWords(w + after);
      { SplitOfWordThen(w, after); }
      [w] + SplitWords(after);
      [w] + (SplitWords(rest) + SplitWords(b));
      { AppendAssoc([w], SplitWords(rest), SplitWords(b)); }
      ([w] + SplitWords(rest)) + SplitWords(b);
      { SplitOfWordThen(w, rest); }
      SplitWords(w + rest) + SplitWords(b);
    }
  }

  /** Regrouping `w + rest + [c] + b` around its second part. */
  lemma Regroup(w: string, rest: string, c: char, b: string)
    ensures w + rest + [c] + b == w + (rest + [c] + b)
    ensures (rest + [c] + b)[0] == if rest == [] then c else rest[0]
  {
  }

  /** The text of `a` before its first whitespace is a word. */
  lemma WordBefore(a: string, n: nat)
    requires a != [] && !IsSpace(a[0]) && n == WordEnd(a)
    ensures IsWord(a[..n]) && a == a[..n] + a[n..]
  {
    var w := a[..n];
    forall i | 0 <= i < |w| ensures !IsSpace(w[i]) {
      assert w[i] == a[i];
    }
  }

  /** A word on its own splits into itself. */
  lemma SplitWordsOfWord(w: string)
    requires IsWord(w)
    ensures SplitWords(w) == [w]
  {
    assert w + [] == w;
    SplitOfWordThen(w, []);
  }

  lemma SplitOfWordThen(w: string, rest: string)
    requires IsWord(w) && (rest == [] || IsSpace(rest[0]))
    ensures SplitWords(w + rest) == [w] + SplitWords(rest)
  {
    var s := w + rest;
    assert TrimLeft(s) == s;
    WordEndOfWord(w, rest);
    assert s[..|w|] == w && s[|w|..] == rest;
  }

  /** Splitting a space-joined list of words gives the list back. */
  lemma {:induction false} SplitJoin(ws: seq<string>)
    requires AllWords(ws)
    ensures SplitWords(JoinSpace(ws)) == ws
    decreases |ws|
  {
    if |ws| == 1 {
      assert IsWord(ws[0]);
      SplitOfWordThen(ws[0], []);
      assert ws[0] + [] == ws[0];
    } else if |ws| > 1 {
      var rest := ws[1..];
      assert AllWords(rest) by {
        forall k | 0 <= k < |rest| ensures IsWord(rest[k]) {
          assert rest[k] == ws[k + 1];
        }
      }
      var tail := JoinSpace(rest);
      assert JoinSpace(ws) == ws[0] + " " + tail;
      assert IsWord(ws[0]);
      SplitJoin(rest);
      SplitJoinStep(ws[0], tail, rest);
      assert ws == [ws[0]] + rest;
    }
  }

  lemma SplitJoinStep(w: string, tail: string, rest: seq<string>)
    requires IsWord(w) && SplitWords(tail) == rest
    ensures SplitWords(w + " " + tail) == [w] + rest
  {
    BlankIsSpace();
    assert w + " " + tail == w + (" " + tail);
    SplitOfWordThen(w, " " + tail);
    SplitAfterSpace(' ', tail);
  }

  lemma {:induction false} JoinSingleSpaced(ws: seq<string>)
    requires AllWords(ws)
    ensures SingleSpaced(JoinSpace(ws))
    ensures ws != [] ==> JoinSpace(ws) != [] && !IsSpace(JoinSpace(ws)[0])
    decreases |ws|
  {
    if |ws| > 1 {
      JoinSingleSpaced(ws[1..]);
      JoinTwoSingleSpaced(ws[0], JoinSpace(ws[1..]));
    }
  }

  lemma JoinTwoSingleSpaced(w: string, tail: string)
    requires IsWord(w) && SingleSpaced(tail) && tail != [] && !IsSpace(tail[0])
    ensures SingleSpaced(w + " " + tail)
    ensures !IsSpace((w + " " + tail)[0])
  {
    var r := w + " " + tail;
    JoinTwoBlanks(w, tail);
    JoinTwoNoDouble(w, tail);
    assert r[|r| - 1] == tail[|tail| - 1];
    assert r[0] == w[0];
  }

  lemma JoinTwoBlanks(w: string, tail: string)
    requires IsWord(w) && SingleSpaced(tail)
    ensures var r := w + " " + tail; forall i :: 0 <= i < |r| && IsSpace(r[i]) ==> r[i] == ' '
  {
    var r := w + " " + tail;
    forall i | 0 <= i < |r| && IsSpace(r[i]) ensures r[i] == ' ' {
      if i > |w| {
        assert r[i] == tail[i - |w| - 1];
      }
    }
  }

  lemma JoinTwoNoDouble(w: string, tail: string)
    requires IsWord(w) && SingleSpaced(tail) && tail != [] && !IsSpace(tail[0])
    ensures var r := w + " " + tail; forall i :: 0 <= i < |r| - 1 && IsSpace(r[i]) ==> !IsSpace(r[i + 1])
  {
    var r := w + " " + tail;
    forall i | 0 <= i < |r| - 1 && IsSpace(r[i]) ensures !IsSpace(r[i + 1]) {
      if i == |w| {
        assert r[i + 1] == tail[0];
      } else if i > |w| {
        assert r[i] == tail[i - |w| - 1];
        assert r[i + 1] == tail[i - |w|];
      }
    }
  }

  /** `' '.join(s.split())` is no longer than `s` with its leading whitespace removed. */
  lemma {:induction false} CollapseBound(s: string)
    ensures |JoinSpace(SplitWords(s))| <= |TrimLeft(s)|
    decreases |s|
  {
    var t := TrimLeft(s);
    if t != [] {
      var n := WordEnd(t);
      var u := t[n..];
      var ws := SplitWords(s);
      assert ws == [t[..n]] + SplitWords(u);
      if SplitWords(u) != [] {
        CollapseBound(u);
        assert u != [] && IsSpace(u[0]);
        assert LeadingSpaces(u) >= 1;
        assert ws[1..] == SplitWords(u);
      }
    }
  }
}
