/** The hand-written glob matcher of the ignore engine: `*` matches any run
    of characters, `?` exactly one character, every other character itself
    (case-sensitively), and a match must use up the text and the pattern
    together.

    The matcher is NOT textbook glob. A `*` that is not the last pattern
    character only tries the split points at which some text is still left,
    so the rest of the pattern is never tried against empty text: `""` does
    not match `"**"`, nor `"a"` match `"a**"`. `GlobMatches` states this
    behaviour, `GlobMatch` computes it the way the source does, and
    `TextbookMatches` is the usual semantics it is compared with. */
module Glob {
  import opened Strings

  /** Whether `text` matches `pattern`, as the source's recursive matcher
      decides it. The recursion follows the pattern: a final `*` succeeds at
      once, a non-final `*` tries the rest of the pattern against every
      non-empty remainder of the text, `?` consumes one character, a literal
      consumes an equal character; an exhausted pattern needs an exhausted
      text. */
  predicate GlobMatches(text: string, pattern: string)
    decreases |pattern|
  {
    if pattern == [] then text == []
    else if pattern[0] == '*' then
      |pattern| == 1 || exists k :: 0 <= k < |text| && GlobMatches(text[k..], pattern[1..])
    else if pattern[0] == '?' then
      text != [] && GlobMatches(text[1..], pattern[1..])
    else
      text != [] && text[0] == pattern[0] && GlobMatches(text[1..], pattern[1..])
  }

  /** The matcher itself: two cursors `i` (text) and `j` (pattern) advance
      together; at a non-final `*` the method calls itself on the remaining
      text and pattern for each split point while text remains. */
  method GlobMatch(text: string, pattern: string) returns (b: bool)
    ensures b == GlobMatches(text, pattern)
    decreases |pattern|
  {
    var i, j := 0, 0;
    while j < |pattern|
      invariant 0 <= i <= |text| && 0 <= j <= |pattern|
      invariant GlobMatches(text[i..], pattern[j..]) == GlobMatches(text, pattern)
      decreases |pattern| - j
    {
      var p := pattern[j];
      ghost var rest := pattern[j + 1..];
      assert pattern[j..][1..] == rest;
      if p == '*' {
        j := j + 1;
        if j == |pattern| {
          return true;
        }
        ghost var start := i;
        while i < |text|
          invariant start <= i <= |text|
          invariant forall k :: start <= k < i ==> !GlobMatches(text[k..], rest)
        {
          var m := GlobMatch(text[i..], pattern[j..]);
          if m {
            assert text[start..][i - start..] == text[i..];
            return true;
          }
          i := i + 1;
        }
        forall k | 0 <= k < |text[start..]|
          ensures !GlobMatches(text[start..][k..], rest)
        {
          assert text[start..][k..] == text[start + k..];
        }
        return false;
      } else if p == '?' {
        j := j + 1;
        if i == |text| {
          return false;
        }
        assert text[i..][1..] == text[i + 1..];
        i := i + 1;
      } else {
        j := j + 1;
        if i == |text| || text[i] != p {
          return false;
        }
        assert text[i..][1..] == text[i + 1..];
        i := i + 1;
      }
    }
    b := i == |text|;
  }

  // ---------------------------------------------------------------------
  // What each kind of pattern character does

  /** A final `*` matches any remaining text, the empty text included. */
  lemma TrailingStarMatchesAll(text: string)
    ensures GlobMatches(text, "*")
  {
  }

  /** `?` consumes exactly one character and fails when none is left. */
  lemma QuestionMarkConsumesOne(text: string, rest: string)
    ensures GlobMatches(text, ['?'] + rest) <==> |text| >= 1 && GlobMatches(text[1..], rest)
  {
    assert (['?'] + rest)[1..] == rest;
  }

  /** A non-final `*` never matches when the text is already used up:
      `""` does not match `"**"`, `"*x"`, ... */
  lemma StarBeforeMoreNeedsText(rest: string)
    requires rest != []
    ensures !GlobMatches("", ['*'] + rest)
  {
  }

  /** A pattern of literal characters only matches exactly itself. */
  lemma {:induction false} LiteralMatchesOnlyItself(text: string, literal: string)
    requires '*' !in literal && '?' !in literal
    ensures GlobMatches(text, literal) <==> text == literal
  {
    if literal != [] {
      assert '*' !in literal[1..] && '?' !in literal[1..] by {
        assert forall c :: c in literal[1..] ==> c in literal;
      }
      if text != [] {
        LiteralMatchesOnlyItself(text[1..], literal[1..]);
        assert text == [text[0]] + text[1..];
        assert literal == [literal[0]] + literal[1..];
      }
    }
  }

  /** Anchoring at the end: `*` followed by literal characters matches
      exactly the texts that end with those characters (`"b.tmp"` matches
      `"*.tmp"`, `"b.tmp.bak"` does not). */
  lemma {:induction false} StarThenLiteral(text: string, literal: string)
    requires '*' !in literal && '?' !in literal
    ensures GlobMatches(text, ['*'] + literal) <==> EndsWith(text, literal)
  {
    var pattern := ['*'] + literal;
    assert pattern[1..] == literal;
    if literal != [] {
      if GlobMatches(text, pattern) {
        var k :| 0 <= k < |text| && GlobMatches(text[k..], literal);
        LiteralMatchesOnlyItself(text[k..], literal);
      }
      if EndsWith(text, literal) {
        var k := |text| - |literal|;
        LiteralMatchesOnlyItself(text[k..], literal);
      }
    }
  }

  /** Anchoring at the start: literal characters followed by a final `*`
      match exactly the texts that start with those characters. */
  lemma {:induction false} LiteralThenStar(text: string, literal: string)
    requires '*' !in literal && '?' !in literal
    ensures GlobMatches(text, literal + ['*']) <==> StartsWith(text, literal)
  {
    if literal != [] {
      var pattern := literal + ['*'];
      assert pattern[0] == literal[0] && pattern[1..] == literal[1..] + ['*'];
      assert '*' !in literal[1..] && '?' !in literal[1..] by {
        assert forall c :: c in literal[1..] ==> c in literal;
      }
      if text != [] {
        LiteralThenStar(text[1..], literal[1..]);
        if |literal| <= |text| {
          assert text[..|literal|] == [text[0]] + text[1..][..|literal| - 1];
        }
        assert literal == [literal[0]] + literal[1..];
      }
    }
  }

  /** A literal (neither `*` nor `?`) in the pattern must occur in any text
      it matches. */
  lemma {:induction false} LiteralMustOccur(text: string, pattern: string, c: char)
    requires c != '*' && c != '?' && c in pattern
    requires GlobMatches(text, pattern)
    ensures c in text
  {
    if pattern[0] == c {
      assert text[0] == c;
    } else {
      assert c in pattern[1..] by { assert pattern == [pattern[0]] + pattern[1..]; }
      if pattern[0] == '*' {
        var k :| 0 <= k < |text| && GlobMatches(text[k..], pattern[1..]);
        LiteralMustOccur(text[k..], pattern[1..], c);
        assert forall x :: x in text[k..] ==> x in text;
      } else {
        LiteralMustOccur(text[1..], pattern[1..], c);
        assert forall x :: x in text[1..] ==> x in text;
      }
    }
  }

  // ---------------------------------------------------------------------
  // Comparison with textbook glob semantics

  /** The usual glob semantics: a `*` matches any run of characters,
      the empty run included, wherever it stands. */
  ghost predicate TextbookMatches(text: string, pattern: string)
    decreases |text| + |pattern|
  {
    if pattern == [] then text == []
    else if pattern[0] == '*' then
      TextbookMatches(text, pattern[1..]) || (text != [] && TextbookMatches(text[1..], pattern))
    else
      text != [] && (pattern[0] == '?' || text[0] == pattern[0]) &&
      TextbookMatches(text[1..], pattern[1..])
  }

  /** Under textbook semantics a leading `*` absorbs any prefix of the text,
      the whole text included. */
  lemma {:induction false} TextbookStar(text: string, rest: string)
    ensures TextbookMatches(text, ['*'] + rest) <==>
            exists k :: 0 <= k <= |text| && TextbookMatches(text[k..], rest)
  {
    var pattern := ['*'] + rest;
    assert pattern[1..] == rest;
    assert text[0..] == text;
    if text != [] {
      TextbookStar(text[1..], rest);
      if TextbookMatches(text, pattern) && !TextbookMatches(text, rest) {
        var k :| 0 <= k <= |text[1..]| && TextbookMatches(text[1..][k..], rest);
        assert text[1..][k..] == text[k + 1..];
      }
      if exists k :: 0 <= k <= |text| && TextbookMatches(text[k..], rest) {
        var k :| 0 <= k <= |text| && TextbookMatches(text[k..], rest);
        if k > 0 {
          assert text[1..][k - 1..] == text[k..];
        }
      }
    }
  }

  /** Everything the matcher accepts, textbook glob accepts too. */
  lemma {:induction false} GlobSound(text: string, pattern: string)
    requires GlobMatches(text, pattern)
    ensures TextbookMatches(text, pattern)
    decreases |pattern|
  {
    if pattern != [] {
      assert pattern == ['*'] + pattern[1..] || pattern[0] != '*';
      if pattern[0] == '*' {
        TextbookStar(text, pattern[1..]);
        if |pattern| == 1 {
          assert TextbookMatches(text[|text|..], pattern[1..]);
        } else {
          var k :| 0 <= k < |text| && GlobMatches(text[k..], pattern[1..]);
          GlobSound(text[k..], pattern[1..]);
        }
      } else {
        GlobSound(text[1..], pattern[1..]);
      }
    }
  }

  /** No `*` directly followed by another `*`. */
  predicate NoDoubleStar(pattern: string)
  {
    forall i :: 0 <= i < |pattern| - 1 ==> !(pattern[i] == '*' && pattern[i + 1] == '*')
  }

  /** The two semantics differ only through `**`: for a pattern without two
      adjacent stars the matcher is exactly textbook glob. */
  lemma {:induction false} GlobIsTextbookWithoutDoubleStar(text: string, pattern: string)
    requires NoDoubleStar(pattern)
    ensures GlobMatches(text, pattern) <==> TextbookMatches(text, pattern)
    decreases |pattern|
  {
    if GlobMatches(text, pattern) {
      GlobSound(text, pattern);
    } else if pattern != [] {
      var rest := pattern[1..];
      assert NoDoubleStar(rest) by {
        forall i | 0 <= i < |rest| - 1
          ensures !(rest[i] == '*' && rest[i + 1] == '*')
        {
          assert rest[i] == pattern[i + 1] && rest[i + 1] == pattern[i + 2];
        }
      }
      if pattern[0] == '*' {
        assert pattern == ['*'] + rest;
        TextbookStar(text, rest);
        if TextbookMatches(text, pattern) {
          var k :| 0 <= k <= |text| && TextbookMatches(text[k..], rest);
          if k < |text| {
            GlobIsTextbookWithoutDoubleStar(text[k..], rest);
          }
        }
      } else if text != [] {
        GlobIsTextbookWithoutDoubleStar(text[1..], rest);
      }
    }
  }

  /** Where `**` meets exhausted text the two part: textbook glob lets
      `"**"` match `""` and `"a**"` match `"a"`; the matcher does not. */
  lemma DoubleStarDiverges()
    ensures TextbookMatches("", "**") && !GlobMatches("", "**")
    ensures TextbookMatches("a", "a**") && !GlobMatches("a", "a**")
  {
    assert "**"[1..] == "*" && "*"[1..] == "";
    assert "a**"[1..] == "**" && "a"[1..] == "";
  }

  /** The matcher on a few small inputs: a lone `*` and a `?` with and
      without a character left. */
  lemma {:induction false} MatcherExamples()
    ensures GlobMatches("", "*") && GlobMatches("anything", "*")
    ensures GlobMatches("ab", "a?") && !GlobMatches("a", "a?")
  {
    assert "a?"[1..] == "?" && "ab"[1..] == "b" && "a"[1..] == "";
  }

  /** An extension glob is anchored at the end of the text. */
  lemma {:induction false} ExtensionMatcherExamples()
    ensures GlobMatches("b.tmp", "*.tmp") && !GlobMatches("b.tmp.bak", "*.tmp")
  {
    var hit, miss, ext := "b.tmp", "b.tmp.bak", ".tmp";
    assert "*.tmp" == ['*'] + ext;
    assert EndsWith(hit, ext) by { assert hit[1..] == ext; }
    assert !EndsWith(miss, ext) by { assert miss[5..][1] != ext[1]; }
    StarThenLiteral(hit, ext);
    StarThenLiteral(miss, ext);
  }
}
