/** The few standard string operations the ignore-pattern engine relies on
    (`ends_with`, `starts_with`, `replace` of one character, `split` on one
    character), stated over `string` = `seq<char>` with the meaning Rust's
    `str` gives them. */
module Strings {

  /** `s.ends_with(suffix)`; an empty suffix is a suffix of every string. */
  predicate EndsWith(s: string, suffix: string)
  {
    |suffix| <= |s| && s[|s| - |suffix|..] == suffix
  }

  /** `s.starts_with(prefix)`. */
  predicate StartsWith(s: string, prefix: string)
  {
    |prefix| <= |s| && s[..|prefix|] == prefix
  }

  /** `s.replace('\\', "/")`: every backslash becomes a forward slash,
      every other character is kept in place. */
  function NormalizeSeparators(s: string): (r: string)
    ensures |r| == |s|
    ensures forall i :: 0 <= i < |s| ==> r[i] == (if s[i] == '\\' then '/' else s[i])
    ensures '\\' !in r
  {
    if s == [] then []
    else [if s[0] == '\\' then '/' else s[0]] + NormalizeSeparators(s[1..])
  }

  /** Normalising twice is normalising once. */
  lemma NormalizeIdempotent(s: string)
    ensures NormalizeSeparators(NormalizeSeparators(s)) == NormalizeSeparators(s)
  {
  }

  /** Normalisation works character by character, so it keeps suffixes. */
  lemma {:induction false} NormalizeKeepsSuffix(s: string, suffix: string)
    requires EndsWith(s, suffix)
    ensures EndsWith(NormalizeSeparators(s), NormalizeSeparators(suffix))
  {
    var n, m := NormalizeSeparators(s), NormalizeSeparators(suffix);
    var d := |s| - |suffix|;
    forall i | 0 <= i < |suffix|
      ensures n[d..][i] == m[i]
    {
      assert s[d + i] == suffix[i];
    }
  }

  /** `s.split(sep)`, collected: the pieces between separators, empty
      pieces included, so there is always at least one piece and one more
      piece than separators. */
  function Split(s: string, sep: char): (segs: seq<string>)
    ensures |segs| >= 1
    ensures forall i :: 0 <= i < |segs| ==> sep !in segs[i]
  {
    if s == [] then [[]]
    else
      var rest := Split(s[1..], sep);
      if s[0] == sep then [[]] + rest
      else [[s[0]] + rest[0]] + rest[1..]
  }

  /** The pieces glued back together with `sep` between consecutive ones. */
  function Join(segs: seq<string>, sep: char): string
    requires |segs| >= 1
  {
    if |segs| == 1 then segs[0]
    else segs[0] + [sep] + Join(segs[1..], sep)
  }

  /** Splitting loses nothing: joining the pieces gives back the string. */
  lemma {:induction false} JoinSplit(s: string, sep: char)
    ensures Join(Split(s, sep), sep) == s
  {
    if s != [] {
      var rest := Split(s[1..], sep);
      JoinSplit(s[1..], sep);
      if s[0] == sep {
        assert Split(s, sep)[1..] == rest;
        assert Join(Split(s, sep), sep) == [] + [sep] + Join(rest, sep);
        assert s == [s[0]] + s[1..];
      } else if |rest| == 1 {
        assert Join(Split(s, sep), sep) == [s[0]] + rest[0];
        assert s == [s[0]] + s[1..];
      } else {
        var segs := Split(s, sep);
        assert segs[1..] == rest[1..];
        assert Join(segs, sep) == ([s[0]] + rest[0]) + [sep] + Join(rest[1..], sep);
        assert Join(rest, sep) == rest[0] + [sep] + Join(rest[1..], sep);
        assert s == [s[0]] + s[1..];
      }
    }
  }

  /** A string without the separator is a single piece. */
  lemma {:induction false} SplitNoSeparator(x: string, sep: char)
    requires sep !in x
    ensures Split(x, sep) == [x]
  {
    if x != [] {
      assert sep !in x[1..] by { assert forall c :: c in x[1..] ==> c in x; }
      SplitNoSeparator(x[1..], sep);
      assert x == [x[0]] + x[1..];
    }
  }

  /** A piece followed by a separator splits off as the first piece. */
  lemma {:induction false} SplitAtFirstSeparator(x: string, sep: char, y: string)
    requires sep !in x
    ensures Split(x + [sep] + y, sep) == [x] + Split(y, sep)
  {
    if x == [] {
      assert x + [sep] + y == [sep] + y;
      assert ([sep] + y)[1..] == y;
    } else {
      assert sep !in x[1..] by { assert forall c :: c in x[1..] ==> c in x; }
      SplitAtFirstSeparator(x[1..], sep, y);
      var s := x + [sep] + y;
      assert s[0] == x[0] && s[1..] == x[1..] + [sep] + y;
      assert x == [x[0]] + x[1..];
    }
  }

  /** Joining pieces that hold no separator and splitting again gives the
      same pieces back. */
  lemma {:induction false} SplitJoin(segs: seq<string>, sep: char)
    requires |segs| >= 1
    requires forall i :: 0 <= i < |segs| ==> sep !in segs[i]
    ensures Split(Join(segs, sep), sep) == segs
  {
    if |segs| == 1 {
      SplitNoSeparator(segs[0], sep);
    } else {
      SplitJoin(segs[1..], sep);
      SplitAtFirstSeparator(segs[0], sep, Join(segs[1..], sep));
      assert segs == [segs[0]] + segs[1..];
    }
  }

  /** Every character of a piece occurs in the split string. */
  lemma {:induction false} SplitPieceChars(s: string, sep: char, i: nat, c: char)
    requires i < |Split(s, sep)| && c in Split(s, sep)[i]
    ensures c in s
  {
    if s != [] {
      var rest := Split(s[1..], sep);
      if s[0] == sep {
        assert i > 0 && Split(s, sep)[i] == rest[i - 1];
        SplitPieceChars(s[1..], sep, i - 1, c);
      } else if i == 0 {
        if c != s[0] {
          assert c in rest[0];
          SplitPieceChars(s[1..], sep, 0, c);
        }
      } else {
        assert Split(s, sep)[i] == rest[i];
        SplitPieceChars(s[1..], sep, i, c);
      }
      assert s == [s[0]] + s[1..];
    }
  }

  /** A string without backslashes is left alone by normalisation. */
  lemma {:induction false} NormalizeFixesSlashPaths(s: string)
    requires '\\' !in s
    ensures NormalizeSeparators(s) == s
  {
    var n := NormalizeSeparators(s);
    assert forall i :: 0 <= i < |s| ==> n[i] == s[i];
  }

  /** A character of the joined string is the separator or comes from a
      piece. */
  lemma {:induction false} CharOfJoin(segments: seq<string>, sep: char, c: char)
    requires |segments| >= 1 && c != sep && c in Join(segments, sep)
    ensures exists k :: 0 <= k < |segments| && c in segments[k]
  {
    if |segments| > 1 {
      if c !in segments[0] {
        CharOfJoin(segments[1..], sep, c);
        var k :| 0 <= k < |segments[1..]| && c in segments[1..][k];
        assert segments[k + 1] == segments[1..][k];
      }
    }
  }

  /** A suffix without the separator that the joined string ends with is a
      suffix of the last piece. */
  lemma {:induction false} LastSegmentKeepsSuffix(segments: seq<string>, sep: char, suffix: string)
    requires |segments| >= 1 && sep !in suffix
    requires EndsWith(Join(segments, sep), suffix)
    ensures EndsWith(segments[|segments| - 1], suffix)
  {
    if |segments| > 1 {
      var head := segments[0] + [sep];
      var tail := Join(segments[1..], sep);
      var s := Join(segments, sep);
      assert s == head + tail;
      assert s[|head| - 1] == sep;
      assert |suffix| <= |tail| by {
        assert forall k :: 0 <= k < |suffix| ==> suffix[k] == s[|s| - |suffix| + k];
      }
      assert tail[|tail| - |suffix|..] == s[|s| - |suffix|..];
      LastSegmentKeepsSuffix(segments[1..], sep, suffix);
    }
  }
}
