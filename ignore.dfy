/** The ignore decision of the disk scanner: one pattern entry, the path
    matcher that tries three strategies for one pattern, and the
    configuration whose enabled entries decide whether a path is skipped. */
module Ignore {
  import opened Strings
  import opened Glob

  /** One user pattern and whether it takes part in matching. */
  datatype IgnorePattern = IgnorePattern(pattern: string, enabled: bool)

  /** Whether `pattern` selects `path`, by any of three strategies on the
      path with every backslash turned into `/`:
      1. it ends with the pattern (its backslashes turned into `/` as well),
         compared literally;
      2. one of its `/`-separated segments, empty ones included, glob-matches
         the pattern as given;
      3. the whole of it glob-matches the pattern as given. */
  predicate PathMatches(path: string, pattern: string)
  {
    var normalized := NormalizeSeparators(path);
    var segments := Split(normalized, '/');
    EndsWith(normalized, NormalizeSeparators(pattern))
    || (exists i :: 0 <= i < |segments| && GlobMatches(segments[i], pattern))
    || GlobMatches(normalized, pattern)
  }

  /** The path matcher: the suffix test, then a loop over the segments that
      returns at the first one that matches, then the whole path. */
  method MatchesPattern(path: string, pattern: string) returns (b: bool)
    ensures b == PathMatches(path, pattern)
  {
    var normalized := NormalizeSeparators(path);
    if EndsWith(normalized, NormalizeSeparators(pattern)) {
      return true;
    }
    var segments := Split(normalized, '/');
    for i := 0 to |segments|
      invariant forall k :: 0 <= k < i ==> !GlobMatches(segments[k], pattern)
    {
      var m := GlobMatch(segments[i], pattern);
      if m {
        return true;
      }
    }
    b := GlobMatch(normalized, pattern);
  }

  /** Whether some enabled entry of `patterns` selects `path`. */
  predicate Ignored(patterns: seq<IgnorePattern>, path: string)
  {
    exists i :: 0 <= i < |patterns| && patterns[i].enabled && PathMatches(path, patterns[i].pattern)
  }

  /** The user's ignore configuration: an ordered list of entries. */
  class IgnoreConfig {
    var patterns: seq<IgnorePattern>

    /** The default configuration holds no entries. */
    constructor Default()
      ensures patterns == []
    {
      patterns := [];
    }

    /** Scans the entries in order, skipping disabled ones, and returns at
        the first enabled entry that selects `path`. */
    method ShouldIgnore(path: string) returns (b: bool)
      ensures b == Ignored(patterns, path)
    {
      for i := 0 to |patterns|
        invariant forall k :: 0 <= k < i ==> !(patterns[k].enabled && PathMatches(path, patterns[k].pattern))
      {
        if !patterns[i].enabled {
          continue;
        }
        var m := MatchesPattern(path, patterns[i].pattern);
        if m {
          return true;
        }
      }
      return false;
    }
  }

  // ---------------------------------------------------------------------
  // The path matcher

  /** A path selects every pattern it literally ends with, before or after
      normalisation of separators. */
  lemma SuffixSelects(path: string, pattern: string)
    requires EndsWith(path, pattern)
    ensures PathMatches(path, pattern)
  {
    NormalizeKeepsSuffix(path, pattern);
  }

  /** The empty pattern is a suffix of everything, so it selects every path. */
  lemma EmptyPatternSelectsEverything(path: string)
    ensures PathMatches(path, "")
  {
  }

  /** A pattern that glob-matches one segment selects the path, at any depth. */
  lemma {:induction false} SegmentSelects(segments: seq<string>, i: nat, pattern: string)
    requires i < |segments|
    requires forall k :: 0 <= k < |segments| ==> '/' !in segments[k] && '\\' !in segments[k]
    requires GlobMatches(segments[i], pattern)
    ensures PathMatches(Join(segments, '/'), pattern)
  {
    var path := Join(segments, '/');
    if '\\' in path {
      CharOfJoin(segments, '/', '\\');
    }
    NormalizeFixesSlashPaths(path);
    SplitJoin(segments, '/');
  }

  /** The glob strategies see the pattern un-normalised while the path has
      no backslash left, so a pattern holding a backslash can only select a
      path through the literal suffix test. */
  lemma {:induction false} BackslashPatternOnlyBySuffix(path: string, pattern: string)
    requires '\\' in pattern
    ensures PathMatches(path, pattern) <==>
            EndsWith(NormalizeSeparators(path), NormalizeSeparators(pattern))
  {
    var normalized := NormalizeSeparators(path);
    var segments := Split(normalized, '/');
    if GlobMatches(normalized, pattern) {
      LiteralMustOccur(normalized, pattern, '\\');
    }
    forall i | 0 <= i < |segments|
      ensures !GlobMatches(segments[i], pattern)
    {
      if GlobMatches(segments[i], pattern) {
        LiteralMustOccur(segments[i], pattern, '\\');
        SplitPieceChars(normalized, '/', i, '\\');
      }
    }
  }

  /** A directory name selects a path that passes through it. */
  lemma {:induction false} DirectoryNameExample()
    ensures PathMatches("/a/node_modules/x", "node_modules")
  {
    var segments := ["", "a", "node_modules", "x"];
    var pattern := "node_modules";
    assert Join(segments, '/') == "/a/node_modules/x";
    forall k | 0 <= k < |segments|
      ensures '/' !in segments[k] && '\\' !in segments[k]
    {
    }
    assert GlobMatches(segments[2], pattern) by {
      LiteralMatchesOnlyItself(pattern, pattern);
    }
    SegmentSelects(segments, 2, pattern);
  }

  /** A file-name glob `*<ext>` selects every path one of whose segments
      ends with `<ext>` (`"/a/b.tmp"` for `"*.tmp"`). */
  lemma {:induction false} ExtensionGlobSelects(segments: seq<string>, i: nat, ext: string)
    requires i < |segments|
    requires forall k :: 0 <= k < |segments| ==> '/' !in segments[k] && '\\' !in segments[k]
    requires '*' !in ext && '?' !in ext
    requires EndsWith(segments[i], ext)
    ensures PathMatches(Join(segments, '/'), ['*'] + ext)
  {
    StarThenLiteral(segments[i], ext);
    SegmentSelects(segments, i, ['*'] + ext);
  }

  /** The glob `*<ext>` is anchored at the end of every segment and of the
      whole path: when no segment ends with `<ext>`, the path is not
      selected (`"/a/b.tmp.bak"` for `"*.tmp"`). */
  lemma {:induction false} ExtensionGlobAnchored(segments: seq<string>, ext: string)
    requires |segments| >= 1
    requires forall k :: 0 <= k < |segments| ==> '/' !in segments[k] && '\\' !in segments[k]
    requires '*' !in ext && '?' !in ext && '/' !in ext && '\\' !in ext
    requires forall k :: 0 <= k < |segments| ==> !EndsWith(segments[k], ext)
    ensures !PathMatches(Join(segments, '/'), ['*'] + ext)
  {
    var path := Join(segments, '/');
    var pattern := ['*'] + ext;
    if '\\' in path {
      CharOfJoin(segments, '/', '\\');
    }
    NormalizeFixesSlashPaths(path);
    NormalizeFixesSlashPaths(pattern);
    SplitJoin(segments, '/');
    if EndsWith(path, pattern) {
      LastSegmentKeepsSuffix(segments, '/', pattern);
    }
    StarThenLiteral(path, ext);
    if EndsWith(path, ext) {
      LastSegmentKeepsSuffix(segments, '/', ext);
    }
    forall k | 0 <= k < |segments|
      ensures !GlobMatches(segments[k], pattern)
    {
      StarThenLiteral(segments[k], ext);
    }
  }

  /** `"*.tmp"` selects `"/a/b.tmp"` through its last segment. */
  lemma {:induction false} ExtensionGlobExample()
    ensures PathMatches("/a/b.tmp", "*.tmp")
  {
    var segments := ["", "a", "b.tmp"];
    var pattern := "*.tmp";
    assert Join(segments, '/') == "/a/b.tmp";
    forall k | 0 <= k < |segments|
      ensures '/' !in segments[k] && '\\' !in segments[k]
    {
    }
    assert GlobMatches(segments[2], pattern) by {
      assert pattern == ['*'] + ".tmp" && segments[2][1..] == ".tmp";
      StarThenLiteral(segments[2], ".tmp");
    }
    SegmentSelects(segments, 2, pattern);
  }

  /** `"*.tmp"` does not select `"/a/b.tmp.bak"`, whose name only contains
      `.tmp`. */
  lemma {:induction false} AnchoredExtensionExample()
    ensures !PathMatches("/a/b.tmp.bak", "*.tmp")
  {
    var segments := ["", "a", "b.tmp.bak"];
    var ext := ".tmp";
    assert Join(segments, '/') == "/a/b.tmp.bak";
    assert ['*'] + ext == "*.tmp";
    forall k | 0 <= k < |segments|
      ensures '/' !in segments[k] && '\\' !in segments[k]
    {
    }
    assert !EndsWith(segments[0], ext) && !EndsWith(segments[1], ext);
    assert !EndsWith(segments[2], ext) by { assert segments[2][5..][1] != ext[1]; }
    ExtensionGlobAnchored(segments, ext);
  }

  // ---------------------------------------------------------------------
  // The ignore decision

  /** Only enabled entries, in their order. */
  function EnabledOnly(patterns: seq<IgnorePattern>): (r: seq<IgnorePattern>)
    ensures forall i :: 0 <= i < |r| ==> r[i].enabled && r[i] in patterns
  {
    if patterns == [] then []
    else (if patterns[0].enabled then [patterns[0]] else []) + EnabledOnly(patterns[1..])
  }

  /** An empty or all-disabled list ignores nothing. */
  lemma NothingEnabledIgnoresNothing(patterns: seq<IgnorePattern>, path: string)
    requires forall i :: 0 <= i < |patterns| ==> !patterns[i].enabled
    ensures !Ignored(patterns, path)
  {
  }

  /** The entries kept by `EnabledOnly` are exactly the enabled ones. */
  lemma {:induction false} EnabledOnlyMembers(patterns: seq<IgnorePattern>, e: IgnorePattern)
    ensures e in EnabledOnly(patterns) <==> e in patterns && e.enabled
  {
    if patterns != [] {
      EnabledOnlyMembers(patterns[1..], e);
      assert patterns == [patterns[0]] + patterns[1..];
    }
  }

  /** Disabled entries never change the decision: dropping all of them
      gives the same answer for every path. */
  lemma DisabledEntriesIrrelevant(patterns: seq<IgnorePattern>, path: string)
    ensures Ignored(EnabledOnly(patterns), path) == Ignored(patterns, path)
  {
    var enabled := EnabledOnly(patterns);
    if Ignored(patterns, path) {
      var i :| 0 <= i < |patterns| && patterns[i].enabled && PathMatches(path, patterns[i].pattern);
      EnabledOnlyMembers(patterns, patterns[i]);
      var j :| 0 <= j < |enabled| && enabled[j] == patterns[i];
    }
  }

  /** The decision over two lists put together is the OR of the decisions
      over each. */
  lemma {:induction false} IgnoredConcat(xs: seq<IgnorePattern>, ys: seq<IgnorePattern>, path: string)
    ensures Ignored(xs + ys, path) <==> Ignored(xs, path) || Ignored(ys, path)
  {
    var zs := xs + ys;
    if Ignored(xs, path) {
      var i :| 0 <= i < |xs| && xs[i].enabled && PathMatches(path, xs[i].pattern);
      assert zs[i] == xs[i];
    }
    if Ignored(zs, path) {
      var i :| 0 <= i < |zs| && zs[i].enabled && PathMatches(path, zs[i].pattern);
      if i >= |xs| {
        assert ys[i - |xs|] == zs[i];
      }
    }
    if Ignored(ys, path) {
      var i :| 0 <= i < |ys| && ys[i].enabled && PathMatches(path, ys[i].pattern);
      assert zs[|xs| + i] == ys[i];
    }
  }

  /** The decision depends only on which entries there are, not on their
      order or multiplicity. */
  lemma {:induction false} OrderIrrelevant(xs: seq<IgnorePattern>, ys: seq<IgnorePattern>, path: string)
    requires forall e :: e in xs <==> e in ys
    ensures Ignored(xs, path) == Ignored(ys, path)
  {
    if Ignored(xs, path) {
      var i :| 0 <= i < |xs| && xs[i].enabled && PathMatches(path, xs[i].pattern);
      assert xs[i] in ys;
    }
    if Ignored(ys, path) {
      var i :| 0 <= i < |ys| && ys[i].enabled && PathMatches(path, ys[i].pattern);
      assert ys[i] in xs;
    }
  }

  /** One enabled empty pattern makes every path ignored. */
  lemma EnabledEmptyPatternIgnoresAll(patterns: seq<IgnorePattern>, i: nat, path: string)
    requires i < |patterns| && patterns[i] == IgnorePattern("", true)
    ensures Ignored(patterns, path)
  {
    EmptyPatternSelectsEverything(path);
  }
}
