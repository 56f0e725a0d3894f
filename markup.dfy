/** A reference definition of tag removal, and the proof that `cleanHTML` agrees
    with it on well-formed markup: text in which every '<' is closed by a later
    '>' before the next '<', and no '>' appears outside a tag. */
module Markup {
  import opened Failures
  import opened Numbers
  import opened Cleaners

  /** `s` is well-formed markup when read starting inside (`inTag`) or outside a tag. */
  predicate WellTagged(s: string, inTag: bool)
    decreases |s|
  {
    if s == [] then !inTag
    else if s[0] == '<' then !inTag && WellTagged(s[1..], true)
    else if s[0] == '>' then inTag && WellTagged(s[1..], false)
    else WellTagged(s[1..], inTag)
  }

  /** The characters of `s` that lie outside every tag, in order. */
  function Untagged(s: string, inTag: bool): string
    decreases |s|
  {
    if s == [] then []
    else if s[0] == '<' then Untagged(s[1..], true)
    else if s[0] == '>' then Untagged(s[1..], false)
    else if inTag then Untagged(s[1..], true)
    else [s[0]] + Untagged(s[1..], false)
  }

  /** Text without brackets in front changes neither well-formedness nor, outside
      a tag, anything but the front of what is kept. */
  lemma {:induction false} PlainPrefix(p: string, r: string, inTag: bool)
    requires '<' !in p && '>' !in p
    ensures WellTagged(p + r, inTag) == WellTagged(r, inTag)
    ensures Untagged(p + r, inTag) == (if inTag then Untagged(r, true) else p + Untagged(r, false))
  {
    if p != [] {
      assert (p + r)[0] == p[0] && (p + r)[1..] == p[1..] + r;
      PlainPrefix(p[1..], r, inTag);
      if !inTag {
        assert [p[0]] + (p[1..] + Untagged(r, false)) == p + Untagged(r, false);
      }
    } else {
      assert p + r == r;
    }
  }

  /** Outside a tag, text with no '<' has no '>' either. */
  lemma {:induction false} NoOpenNoClose(s: string, i: nat)
    requires WellTagged(s, false) && i <= |s| && '<' !in s[..i]
    ensures '>' !in s[..i]
  {
    if i > 0 {
      assert s[0] == s[..i][0];
      assert s[1..][..i - 1] == s[..i][1..];
      NoOpenNoClose(s[1..], i - 1);
      assert s[..i] == [s[0]] + s[1..][..i - 1];
    }
  }

  /** Inside a tag, the first '>' closes it: nothing before it is '<', and what
      follows is well-formed from outside a tag and keeps the same text. */
  lemma {:induction false} InsideTag(r: string)
    requires WellTagged(r, true) && |r| < NPOS
    ensures '>' in r
    ensures var k := Find(r, '>');
      && '<' !in r[..k]
      && WellTagged(r[k + 1..], false)
      && Untagged(r, true) == Untagged(r[k + 1..], false)
  {
    if r[0] != '>' {
      InsideTag(r[1..]);
      var k := Find(r[1..], '>');
      assert r[1 + k] == '>';
      assert r[..1 + k] == [r[0]] + r[1..][..k];
      FindUnique(r, '>', 1 + k);
      assert r[1..][k + 1..] == r[1 + k + 1..];
    } else {
      FindUnique(r, '>', 0);
    }
  }

  /** Well-formed markup is plain text up to its first '<'. */
  lemma FirstOpen(s: string)
    requires |s| < NPOS && WellTagged(s, false) && '<' in s
    ensures '>' !in s[..Find(s, '<')]
    ensures WellTagged(s[Find(s, '<') + 1..], true)
    ensures Untagged(s, false) == s[..Find(s, '<')] + Untagged(s[Find(s, '<') + 1..], true)
  {
    var i := Find(s, '<');
    NoOpenNoClose(s, i);
    assert s == s[..i] + s[i..];
    PlainPrefix(s[..i], s[i..], false);
    assert s[i..][0] == '<' && s[i..][1..] == s[i + 1..];
  }

  /** The first '>' of well-formed markup closes its first tag. */
  lemma FirstClose(s: string, i: nat, k: nat)
    requires |s| < NPOS && i < |s| && s[i] == '<' && '>' !in s[..i]
    requires k < |s[i + 1..]| && s[i + 1..][k] == '>' && '>' !in s[i + 1..][..k]
    ensures '>' in s && Find(s, '>') == i + 1 + k
  {
    var rest := s[i + 1..];
    var j := i + 1 + k;
    assert s[j] == '>';
    assert '>' !in s[..j] by {
      assert s[..j] == s[..i] + ['<'] + rest[..k];
    }
    FindUnique(s, '>', j);
  }

  /** Where the first tag of well-formed markup starts and ends. */
  lemma FirstTagSpan(s: string) returns (i: nat, j: nat)
    requires |s| < NPOS && WellTagged(s, false) && '<' in s
    ensures i == Find(s, '<') && '>' in s && j == Find(s, '>') && i < j
    ensures Untagged(s, false) == s[..i] + Untagged(s[j + 1..], false)
    ensures WellTagged(s[j + 1..], false)
  {
    i := Find(s, '<');
    var rest := s[i + 1..];
    FirstOpen(s);
    var k := Find(rest, '>');
    InsideTag(rest);
    j := i + 1 + k;
    FirstClose(s, i, k);
    var tail := rest[k + 1..];
    assert s[j + 1..] == tail;
    assert Untagged(s, false) == s[..i] + Untagged(rest, true);
    assert Untagged(rest, true) == Untagged(tail, false);
  }

  /** One pass of `cleanHTML` on well-formed markup cuts out the first tag: what
      is left is the plain text before it followed by the markup after it. */
  lemma CutFirstTag(s: string) returns (p: string, r: string)
    requires |s| < NPOS && WellTagged(s, false) && '<' in s
    ensures Step(s) == p + r && |r| < |s| - |p|
    ensures '<' !in p && '>' !in p && WellTagged(r, false)
    ensures Untagged(s, false) == p + Untagged(r, false)
  {
    var i, j := FirstTagSpan(s);
    assert Step(s) == s[..i] + s[j + 1..] by {
      StepCutsTag(s);
    }
    assert '<' !in s[..i] && '>' !in s[..i] by {
      FirstOpen(s);
    }
    p, r := s[..i], s[j + 1..];
  }

  /** One pass of `cleanHTML` on well-formed markup keeps it well-formed, with
      the same text outside tags, and makes it shorter. */
  lemma WellTaggedStep(s: string)
    requires |s| < NPOS && WellTagged(s, false) && '<' in s
    ensures |Step(s)| < |s|
    ensures WellTagged(Step(s), false)
    ensures Untagged(Step(s), false) == Untagged(s, false)
  {
    var p, r := CutFirstTag(s);
    PlainPrefix(p, r, false);
  }

  /** On well-formed markup, `cleanHTML` returns, and returns exactly the text
      outside the tags. */
  lemma {:induction false} StripRemovesExactlyTags(s: string)
    requires |s| < NPOS && WellTagged(s, false)
    ensures Strip(s) == Some(Untagged(s, false))
    decreases |s|
  {
    if '<' !in s {
      NoOpenNoClose(s, |s|);
      assert s[..|s|] == s;
      PlainPrefix(s, [], false);
      assert s + [] == s;
    } else {
      WellTaggedStep(s);
      StripRemovesExactlyTags(Step(s));
    }
  }

  /** For instance, `"<b>x</b>y"` becomes `"xy"`: an instance of
      StripRemovesExactlyTags. */
  lemma BoldExample(s: string)
    requires s == "<b>x</b>y"
    ensures Strip(s) == Some("xy")
  {
    assert WellTagged("<b>x</b>y", false);
    assert Untagged("<b>x</b>y", false) == "xy";
    StripRemovesExactlyTags(s);
  }
}
