/**
 * The tag stripping `re.sub(r'<[^>]+>', '', v)` that the menu-text
 * validator applies: scanning from the left, a '<' followed by at least one
 * code point other than '>' and then a '>' is removed together with that
 * text; everything else is kept.
 */
module Markup {

  /** `s` starts with a match of `<[^>]+>`. */
  predicate TagAt(s: string) {
    |s| >= 2 && s[0] == '<' && s[1] != '>' && '>' in s[2..]
  }

  /** The position of the first '>' in `s`. */
  function CloseAt(s: string): (k: nat)
    requires '>' in s
    ensures k < |s| && s[k] == '>'
    ensures '>' !in s[..k]
  {
    if s[0] == '>' then
      0
    else
      assert '>' in s[1..];
      var k := CloseAt(s[1..]);
      assert s[..k + 1] == [s[0]] + s[1..][..k];
      k + 1
  }

  /**
   * `re.sub(r'<[^>]+>', '', s)`. A match starting at the front runs to the
   * first '>' (the class `[^>]` cannot step over one), and scanning resumes
   * after it; where no match starts, one code point is kept.
   */
  function StripTags(s: string): (r: string)
    ensures |r| <= |s|
    decreases |s|
  {
    if s == [] then
      []
    else if TagAt(s) then
      var close := CloseAt(s);
      StripTags(s[close + 1..])
    else
      [s[0]] + StripTags(s[1..])
  }

  /** Text without '<' in front of the rest is kept as it is, in order. */
  lemma {:induction false} PlainPrefixKept(w: string, s: string)
    requires '<' !in w
    ensures StripTags(w + s) == w + StripTags(s)
    decreases |w|
  {
    if w == [] {
      assert w + s == s;
    } else {
      var t := w + s;
      assert t[0] == w[0] && !TagAt(t);
      assert t[1..] == w[1..] + s;
      PlainPrefixKept(w[1..], s);
      assert w == [w[0]] + w[1..];
    }
  }

  /** A leading tag, from '<' through the first '>', is removed whole and scanning resumes after it. */
  lemma LeadingTagDropped(body: string, s: string)
    requires body != [] && '>' !in body
    ensures StripTags("<" + body + ">" + s) == StripTags(s)
  {
    var t := "<" + body + ">" + s;
    var k := |body| + 1;
    assert t[k] == '>' && t[1] == body[0];
    assert TagAt(t) by { assert t[k] in t[2..]; }
    assert forall j :: 1 <= j < k ==> t[j] == body[j - 1];
    assert CloseAt(t) == k;
    assert t[k + 1..] == s;
  }

  /** A '<' followed at once by '>' opens no match: both are kept and scanning resumes after them. */
  lemma StrayOpenerKept(s: string)
    ensures StripTags("<>" + s) == "<>" + StripTags(s)
  {
    var t := "<>" + s;
    assert !TagAt(t) && t[1..] == ">" + s;
    assert !TagAt(">" + s) && (">" + s)[1..] == s;
  }

  /** No match of `<[^>]+>` starts anywhere in `s`. */
  predicate TagFree(s: string)
    decreases |s|
  {
    s == [] || (!TagAt(s) && TagFree(s[1..]))
  }

  /** Stripping keeps only code points of the input. */
  lemma {:induction false} StripTagsKeeps(s: string, c: char)
    requires c in StripTags(s)
    ensures c in s
    decreases |s|
  {
    if TagAt(s) {
      var close := CloseAt(s);
      StripTagsKeeps(s[close + 1..], c);
      assert c in s[close + 1..];
    } else if c != s[0] {
      StripTagsKeeps(s[1..], c);
    }
  }

  /** No tag survives stripping, so one pass removes every tag. */
  lemma {:induction false} StripTagsTagFree(s: string)
    ensures TagFree(StripTags(s))
    decreases |s|
  {
    if s == [] {
    } else if TagAt(s) {
      StripTagsTagFree(s[CloseAt(s) + 1..]);
    } else {
      StripTagsTagFree(s[1..]);
      KeptOpenerNoTag(s);
    }
  }

  /** A first code point that does not start a tag does not start one once the rest is stripped. */
  lemma KeptOpenerNoTag(s: string)
    requires s != [] && !TagAt(s)
    ensures !TagAt([s[0]] + StripTags(s[1..]))
  {
    var rest := s[1..];
    var r := [s[0]] + StripTags(rest);
    if s[0] == '<' && |r| >= 2 {
      if rest[0] == '>' {
        assert !TagAt(rest);
        assert StripTags(rest)[0] == '>';
      } else {
        assert '>' !in s[2..];
        if '>' in r[2..] {
          var k :| 2 <= k < |r| && r[k] == '>';
          assert r[k] in StripTags(rest)[1..];
          StripTagsSecond(rest, '>');
        }
      }
    }
  }

  /** When the first code point of `s` opens no tag, the stripped text after its first code point comes from `s[1..]`. */
  lemma StripTagsSecond(s: string, c: char)
    requires s != [] && !TagAt(s) && c in StripTags(s)[1..]
    ensures c in s[1..]
  {
    assert StripTags(s)[1..] == StripTags(s[1..]);
    StripTagsKeeps(s[1..], c);
  }

  /** Text that holds no tag is left alone. */
  lemma {:induction false} TagFreeUnchanged(s: string)
    requires TagFree(s)
    ensures StripTags(s) == s
    decreases |s|
  {
    if s != [] {
      TagFreeUnchanged(s[1..]);
    }
  }

  /** Stripping twice is stripping once. */
  lemma StripTagsIdempotent(s: string)
    ensures StripTags(StripTags(s)) == StripTags(s)
  {
    StripTagsTagFree(s);
    TagFreeUnchanged(StripTags(s));
  }

  /** Text without '<' holds no tag. */
  lemma {:induction false} NoOpenerTagFree(s: string)
    requires '<' !in s
    ensures TagFree(s)
    decreases |s|
  {
    if s != [] {
      NoOpenerTagFree(s[1..]);
    }
  }
}
