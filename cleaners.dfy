/** The two string cleaners of src/rss.cpp: `cleanWhiteSpace`, which erases every
    newline, and `cleanHTML`, which repeatedly erases from the first '<' using the
    position of the first '>' in `size_t` arithmetic. */
module Cleaners {
  import opened Failures
  import opened Numbers

  // ---------------------------------------------------------------- cleanWhiteSpace

  /** The string with every '\n' removed and every other character kept, in order. */
  function RemoveNewlines(s: string): (r: string)
    ensures |r| <= |s|
  {
    if s == [] then []
    else if s[0] == '\n' then RemoveNewlines(s[1..])
    else [s[0]] + RemoveNewlines(s[1..])
  }

  /** `cleanWhiteSpace(str)`: `std::remove` compacts the characters other than '\n'
      to the front, then `erase` cuts the tail. */
  method CleanWhiteSpace(s: string) returns (r: string)
    ensures r == RemoveNewlines(s)
    ensures '\n' !in r
  {
    r := [];
    var i := 0;
    while i < |s|
      invariant 0 <= i <= |s|
      invariant r + RemoveNewlines(s[i..]) == RemoveNewlines(s)
      invariant '\n' !in r
    {
      assert s[i..] == [s[i]] + s[i + 1..];
      if s[i] != '\n' {
        r := r + [s[i]];
      }
      i := i + 1;
    }
    NoNewlinesLeft(s);
  }

  lemma {:induction false} NoNewlinesLeft(s: string)
    ensures '\n' !in RemoveNewlines(s)
  {
    if s != [] { NoNewlinesLeft(s[1..]); }
  }

  /** Removing newlines distributes over concatenation: what is kept from `a`
      comes first, in `a`'s order, then what is kept from `b`. */
  lemma {:induction false} RemoveNewlinesAppend(a: string, b: string)
    ensures RemoveNewlines(a + b) == RemoveNewlines(a) + RemoveNewlines(b)
  {
    if a != [] {
      assert (a + b)[0] == a[0];
      assert (a + b)[1..] == a[1..] + b;
      RemoveNewlinesAppend(a[1..], b);
      if a[0] != '\n' {
        calc {
          RemoveNewlines(a + b);
          [a[0]] + RemoveNewlines(a[1..] + b);
          [a[0]] + (RemoveNewlines(a[1..]) + RemoveNewlines(b));
          ([a[0]] + RemoveNewlines(a[1..])) + RemoveNewlines(b);
        }
      }
    } else {
      assert a + b == b;
    }
  }

  /** Exactly the '\n' characters go: a string without them is returned unchanged,
      and each character other than '\n' survives. */
  lemma {:induction false} RemoveNewlinesKeeps(s: string)
    ensures '\n' !in s ==> RemoveNewlines(s) == s
    ensures forall c :: c != '\n' ==> multiset(RemoveNewlines(s))[c] == multiset(s)[c]
    ensures multiset(RemoveNewlines(s))['\n'] == 0
  {
    if s != [] {
      RemoveNewlinesKeeps(s[1..]);
      assert s == [s[0]] + s[1..];
    }
  }

  /** `cleanWhiteSpace` is idempotent. */
  lemma RemoveNewlinesIdempotent(s: string)
    ensures RemoveNewlines(RemoveNewlines(s)) == RemoveNewlines(s)
  {
    NoNewlinesLeft(s);
    RemoveNewlinesKeeps(RemoveNewlines(s));
  }

  /** Carriage returns, tabs and spaces are not newlines and survive: an
      instance of RemoveNewlinesKeeps. */
  lemma OtherWhitespaceSurvives()
    ensures RemoveNewlines("\r\n\t \n") == "\r\t "
  {
    var s := "\r\n\t \n";
    assert s[1..] == "\n\t \n" && s[2..] == "\t \n" && s[3..] == " \n";
    assert s[4..] == "\n" && s[5..] == [];
  }

  // ---------------------------------------------------------------- cleanHTML

  /** `std::string::npos`. */
  const NPOS: nat := SIZE_T_MAX

  /** `s.find(c)`: index of the first `c`, or `npos`. A `std::string` is always
      shorter than `npos`. */
  function Find(s: string, c: char): (i: SizeT)
    requires |s| < NPOS
    ensures c !in s <==> i == NPOS
    ensures c in s ==> i < |s| && s[i] == c && c !in s[..i]
  {
    if s == [] then NPOS
    else if s[0] == c then 0
    else
      var j := Find(s[1..], c);
      if j == NPOS then NPOS
      else
        assert s[..j + 1] == [s[0]] + s[1..][..j];
        1 + j
  }

  /** `find` reports the first occurrence. */
  lemma FindUnique(s: string, c: char, n: nat)
    requires |s| < NPOS && n < |s| && s[n] == c && c !in s[..n]
    ensures Find(s, c) == n
  {
    assert c in s;
    var f := Find(s, c);
    forall m | 0 <= m < n ensures s[m] != c {
      assert s[m] == s[..n][m];
    }
    forall m | 0 <= m < f ensures s[m] != c {
      assert s[m] == s[..f][m];
    }
  }

  /** `s.erase(pos, count)`: removes `count` characters, or all up to the end. */
  function Erase(s: string, pos: nat, count: nat): (r: string)
    requires pos <= |s|
    ensures |r| == |s| - (if count < |s| - pos then count else |s| - pos)
  {
    if count < |s| - pos then s[..pos] + s[pos + count..] else s[..pos]
  }

  /** One pass of the `while` loop of `cleanHTML`. `find(">") + 1` and
      `endpos - startpos` are unsigned, so both wrap modulo 2^64. */
  function Step(s: string): (t: string)
    requires '<' in s && |s| < NPOS
    ensures |t| <= |s|
  {
    var start := Find(s, '<');
    var endpos := Plus(Find(s, '>'), 1);
    if endpos != NPOS then Erase(s, start, Minus(endpos, start)) else s
  }

  /** What `cleanHTML` leaves, or `None` when its loop never ends: a pass that
      erases nothing leaves the string as it was, so every later pass repeats it. */
  function Strip(s: string): (r: Option<string>)
    requires |s| < NPOS
    ensures r.Some? ==> '<' !in r.value && |r.value| <= |s|
    ensures '<' !in s ==> r == Some(s)
    decreases |s|
  {
    if '<' !in s then Some(s)
    else
      var t := Step(s);
      if |t| < |s| then Strip(t) else None
  }

  /** `erase` only removes characters. */
  lemma EraseKeepsChars(s: string, pos: nat, count: nat)
    requires pos <= |s|
    ensures forall c :: c in Erase(s, pos, count) ==> c in s
  {
    var r := Erase(s, pos, count);
    forall c | c in r ensures c in s {
      var k :| 0 <= k < |r| && r[k] == c;
      if k < pos {
        assert r[k] == r[..pos][k] == s[k];
      } else {
        assert r[k] == s[k + count];
      }
    }
  }

  /** A pass only removes characters. */
  lemma StepKeepsChars(s: string)
    requires '<' in s && |s| < NPOS
    ensures forall c :: c in Step(s) ==> c in s
  {
    var endpos := Plus(Find(s, '>'), 1);
    if endpos != NPOS {
      EraseKeepsChars(s, Find(s, '<'), Minus(endpos, Find(s, '<')));
    }
  }

  /** `cleanHTML` only removes characters. */
  lemma {:induction false} StripKeepsChars(s: string)
    requires |s| < NPOS && Strip(s).Some?
    ensures forall c :: c in Strip(s).value ==> c in s
    decreases |s|
  {
    if '<' in s {
      StepKeepsChars(s);
      StripKeepsChars(Step(s));
    }
  }

  /** `cleanHTML(str)`, for the strings on which it returns. */
  method CleanHtml(s: string) returns (r: string)
    requires |s| < NPOS && Strip(s).Some?
    ensures Strip(s) == Some(r)
    ensures '<' !in r
  {
    r := s;
    while Find(r, '<') != NPOS
      invariant |r| < NPOS && Strip(r) == Strip(s)
      decreases |r|
    {
      var startpos := Find(r, '<');
      var endpos := Plus(Find(r, '>'), 1);
      if endpos != NPOS {
        r := Erase(r, startpos, Minus(endpos, startpos));
      }
    }
  }

  /** A string is its two halves around any index. */
  lemma SplitJoin(s: string, i: nat)
    requires i <= |s|
    ensures s[..i] + s[i..] == s
  {
  }

  /** Erasing from `i` through `j` leaves what is before and after the span. */
  lemma EraseSpan(s: string, i: nat, j: nat)
    requires i <= j < |s|
    ensures Erase(s, i, j + 1 - i) == s[..i] + s[j + 1..]
  {
  }

  /** A count reaching past the end erases everything from `i` on. */
  lemma EraseToEnd(s: string, i: nat, count: nat)
    requires i <= |s| && count >= |s| - i
    ensures Erase(s, i, count) == s[..i]
  {
  }

  /** A pass that removes nothing leaves the string as it was. */
  lemma StepSameLength(s: string)
    requires '<' in s && |s| < NPOS && |Step(s)| == |s|
    ensures Step(s) == s
  {
    var start := Find(s, '<');
    var endpos := Plus(Find(s, '>'), 1);
    if endpos != NPOS {
      var count := Minus(endpos, start);
      assert count == 0;
      SplitJoin(s, start);
    }
  }

  /** A pass keeps everything in front of the first '<'. */
  lemma StepKeepsFront(s: string)
    requires '<' in s && |s| < NPOS
    ensures Find(s, '<') <= |Step(s)| && Step(s)[..Find(s, '<')] == s[..Find(s, '<')]
  {
    var start := Find(s, '<');
    var endpos := Plus(Find(s, '>'), 1);
    if endpos != NPOS {
      var count := Minus(endpos, start);
      if count < |s| - start {
        assert Step(s) == s[..start] + s[start + count..];
      } else {
        assert Step(s) == s[..start];
      }
    }
  }

  /** A string that one pass leaves shorter and free of '<' is the result. */
  lemma StripOnce(s: string, t: string)
    requires '<' in s && |s| < NPOS && Step(s) == t && |t| < |s| && '<' !in t
    ensures Strip(s) == Some(t)
  {
  }

  // The outcomes of one pass, by where the first '>' (at `j`) lies relative to
  // the first '<' (at `i`).

  /** `i < j`: the span from '<' to '>' inclusive is erased. */
  lemma StepCutsTag(s: string)
    requires '<' in s && '>' in s && |s| < NPOS
    requires Find(s, '<') < Find(s, '>')
    ensures Step(s) == s[..Find(s, '<')] + s[Find(s, '>') + 1..]
  {
    var i, j := Find(s, '<'), Find(s, '>');
    assert Plus(j, 1) == j + 1 != NPOS;
    assert Step(s) == Erase(s, i, Minus(j + 1, i));
    assert Minus(j + 1, i) == j + 1 - i;
    EraseSpan(s, i, j);
  }

  /** No '>' and `i > 0`, or `j + 1 < i`: everything from '<' on is erased,
      because the unsigned erase count wraps to a huge value. */
  lemma StepCutsTail(s: string)
    requires '<' in s && |s| < NPOS
    requires || ('>' !in s && Find(s, '<') > 0)
             || ('>' in s && Find(s, '>') + 1 < Find(s, '<'))
    ensures Step(s) == s[..Find(s, '<')]
  {
    var i, j := Find(s, '<'), Find(s, '>');
    if '>' in s {
      assert Plus(j, 1) == j + 1 != NPOS;
      assert Minus(j + 1, i) == j + 1 - i + SIZE_T_MAX + 1;
      assert Step(s) == Erase(s, i, j + 1 - i + SIZE_T_MAX + 1);
      EraseToEnd(s, i, j + 1 - i + SIZE_T_MAX + 1);
    } else {
      assert Plus(j, 1) == 0 != NPOS;
      assert Minus(0, i) == SIZE_T_MAX + 1 - i;
      assert Step(s) == Erase(s, i, SIZE_T_MAX + 1 - i);
      EraseToEnd(s, i, SIZE_T_MAX + 1 - i);
    }
  }

  /** `j + 1 == i` ("><"), or no '>' and `i == 0`: the erase count is 0 and
      nothing changes. */
  lemma StepStuck(s: string)
    requires '<' in s && |s| < NPOS
    requires || ('>' in s && Find(s, '>') + 1 == Find(s, '<'))
             || ('>' !in s && Find(s, '<') == 0)
    ensures Step(s) == s
  {
    var i, j := Find(s, '<'), Find(s, '>');
    if '>' in s {
      assert Plus(j, 1) == i != NPOS;
    } else {
      assert Plus(j, 1) == 0 != NPOS;
    }
    assert Minus(Plus(j, 1), i) == 0;
    assert Step(s) == Erase(s, i, 0);
    SplitJoin(s, i);
  }

  /** A pass that erases nothing makes `cleanHTML` loop forever. */
  lemma {:induction false} StuckMeansForever(s: string)
    requires '<' in s && |s| < NPOS && Step(s) == s
    ensures Strip(s) == None
  {
  }

  /** `cleanHTML` never returns on a string that starts with '<' and has no '>':
      the wrapped `endpos` is 0, so the erase count is 0. An instance of
      StepStuck. */
  lemma LeadingUnclosedDiverges(s: string)
    requires s == "<p"
    ensures Strip(s) == None
  {
    assert s[0] == '<' && s[..0] == [] && Find(s, '<') == 0;
    assert '>' !in s;
    StepStuck(s);
  }

  /** Nor on a string whose first '>' sits immediately before its first '<'
      (again an instance of StepStuck). */
  lemma AdjacentCloseOpenDiverges(s: string)
    requires s == "a><b"
    ensures Strip(s) == None
  {
    assert s[2] == '<' && s[..2] == "a>" && Find(s, '<') == 2;
    assert s[1] == '>' && s[..1] == "a" && Find(s, '>') == 1;
    StepStuck(s);
  }

  /** On a string with one tag, the tag is cut out: an instance of StepCutsTag. */
  lemma TagRemoved(s: string)
    requires s == "a<b>c"
    ensures Strip(s) == Some("ac")
  {
    assert Find(s, '<') == 1 by {
      assert s[..1] == "a";
      FindUnique(s, '<', 1);
    }
    assert Find(s, '>') == 3 by {
      assert s[..3] == "a<b";
      FindUnique(s, '>', 3);
    }
    StepCutsTag(s);
    assert Step(s) == s[..1] + s[4..] == "ac";
  }

  /** A trailing '<' with no '>' anywhere cuts the rest of the string: an
      instance of StepCutsTail. */
  lemma UnclosedTailRemoved(s: string)
    requires s == "x<y"
    ensures Strip(s) == Some("x")
  {
    assert Find(s, '<') == 1 by {
      assert s[..1] == "x";
      FindUnique(s, '<', 1);
    }
    assert '>' !in s;
    StepCutsTail(s);
    assert Step(s) == s[..1] == "x";
  }

  /** A stray '>' before the first tag cuts everything from that tag on,
      including the text after the tag: an instance of StepCutsTail. */
  lemma StrayCloseCutsTail(s: string)
    requires s == "y>z<a>b"
    ensures Strip(s) == Some("y>z")
  {
    assert Find(s, '<') == 3 by {
      assert s[..3] == "y>z";
      FindUnique(s, '<', 3);
    }
    assert Find(s, '>') == 1 by {
      assert s[..1] == "y";
      FindUnique(s, '>', 1);
    }
    assert Step(s) == "y>z" by {
      StepCutsTail(s);
      assert s[..3] == "y>z";
    }
    StripOnce(s, "y>z");
  }

  /** A pass never touches text in front of the first '<'. */
  lemma StepKeepsPlainPrefix(s: string, p: string)
    requires '<' in s && |s| < NPOS && p <= s && '<' !in p
    ensures p <= Step(s)
  {
    var i := Find(s, '<');
    assert forall k :: 0 <= k < |p| ==> p[k] == s[k];
    assert p == s[..i][..|p|];
  }

  /** The text before the first '<' is never touched: every prefix without a
      '<' survives `cleanHTML`. */
  lemma {:induction false} StripKeepsLeadingText(s: string, p: string)
    requires |s| < NPOS && Strip(s).Some? && p <= s && '<' !in p
    ensures p <= Strip(s).value
    decreases |s|
  {
    if '<' in s {
      StepKeepsPlainPrefix(s, p);
      StripKeepsLeadingText(Step(s), p);
    }
  }

  /** `cleanHTML` is idempotent where it returns. */
  lemma StripIdempotent(s: string)
    requires |s| < NPOS && Strip(s).Some?
    ensures Strip(Strip(s).value) == Strip(s)
  {
  }
}
