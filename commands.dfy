/** The commands that list and edit the ignore configuration: list, add,
    remove and toggle. Each is one sequential step on the configuration's
    entry list. Every change to the list is made before the configuration
    is saved, so a failed save still leaves the change in memory. The save
    itself is file I/O and is not modelled: its outcome is an argument of
    the command. */
module Commands {
  import opened Ignore

  /** What a command reports: success, or an error message. */
  datatype Outcome = Ok | Err(message: string)

  datatype Option<T> = None | Some(value: T)

  const PatternAlreadyExists: string := "Pattern already exists"
  const PatternNotFound: string := "Pattern not found"

  /** Some entry carries exactly the string `pattern`. */
  predicate HasPattern(patterns: seq<IgnorePattern>, pattern: string)
  {
    exists i :: 0 <= i < |patterns| && patterns[i].pattern == pattern
  }

  /** No two entries carry the same string. */
  predicate Unique(patterns: seq<IgnorePattern>)
  {
    forall i, j :: 0 <= i < j < |patterns| ==> patterns[i].pattern != patterns[j].pattern
  }

  /** The entries whose string differs from `pattern`, in their order. */
  function Retained(patterns: seq<IgnorePattern>, pattern: string): (r: seq<IgnorePattern>)
    ensures |r| <= |patterns|
    ensures forall i :: 0 <= i < |r| ==> r[i].pattern != pattern && r[i] in patterns
    decreases |patterns|
  {
    if patterns == [] then []
    else
      var last := patterns[|patterns| - 1];
      Retained(patterns[..|patterns| - 1], pattern) + (if last.pattern != pattern then [last] else [])
  }

  /** The position of the first entry carrying `pattern`. */
  function FirstIndex(patterns: seq<IgnorePattern>, pattern: string): (i: nat)
    requires HasPattern(patterns, pattern)
    ensures i < |patterns| && patterns[i].pattern == pattern
    ensures forall k :: 0 <= k < i ==> patterns[k].pattern != pattern
  {
    if patterns[0].pattern == pattern then 0
    else
      assert HasPattern(patterns[1..], pattern) by {
        var j :| 0 <= j < |patterns| && patterns[j].pattern == pattern;
        assert patterns[1..][j - 1] == patterns[j];
      }
      1 + FirstIndex(patterns[1..], pattern)
  }

  /** The list with the flag of the first entry carrying `pattern` flipped:
      every string stays in place, and a flag changes exactly at the entry
      that carries `pattern` with no earlier entry carrying it. */
  function Toggled(patterns: seq<IgnorePattern>, pattern: string): (r: seq<IgnorePattern>)
    requires HasPattern(patterns, pattern)
    ensures |r| == |patterns|
    ensures forall j :: 0 <= j < |r| ==> r[j].pattern == patterns[j].pattern
    ensures forall j :: 0 <= j < |r| ==>
              (r[j].enabled != patterns[j].enabled <==>
               patterns[j].pattern == pattern && forall k :: 0 <= k < j ==> patterns[k].pattern != pattern)
  {
    var i := FirstIndex(patterns, pattern);
    patterns[i := patterns[i].(enabled := !patterns[i].enabled)]
  }

  // ---------------------------------------------------------------------
  // The list operations the commands use

  /** Whether any entry carries `pattern`, scanning in order. */
  method AnyHasPattern(patterns: seq<IgnorePattern>, pattern: string) returns (found: bool)
    ensures found == HasPattern(patterns, pattern)
  {
    for i := 0 to |patterns|
      invariant forall k :: 0 <= k < i ==> patterns[k].pattern != pattern
    {
      if patterns[i].pattern == pattern {
        return true;
      }
    }
    return false;
  }

  /** The position of the first entry carrying `pattern`, if any. */
  method FindPattern(patterns: seq<IgnorePattern>, pattern: string) returns (found: Option<nat>)
    ensures found.None? <==> !HasPattern(patterns, pattern)
    ensures found.Some? ==> HasPattern(patterns, pattern) && found.value == FirstIndex(patterns, pattern)
  {
    for i := 0 to |patterns|
      invariant forall k :: 0 <= k < i ==> patterns[k].pattern != pattern
    {
      if patterns[i].pattern == pattern {
        return Some(i);
      }
    }
    return None;
  }

  /** Keeps the entries whose string differs from `pattern`, in order. */
  method Retain(patterns: seq<IgnorePattern>, pattern: string) returns (kept: seq<IgnorePattern>)
    ensures kept == Retained(patterns, pattern)
  {
    kept := [];
    for i := 0 to |patterns|
      invariant kept == Retained(patterns[..i], pattern)
    {
      assert patterns[..i + 1][..i] == patterns[..i];
      if patterns[i].pattern != pattern {
        kept := kept + [patterns[i]];
      }
    }
    assert patterns[..|patterns|] == patterns;
  }

  // ---------------------------------------------------------------------
  // The commands

  /** A copy of the current entries; nothing changes. */
  method GetIgnorePatterns(config: IgnoreConfig) returns (patterns: seq<IgnorePattern>)
    ensures patterns == config.patterns
  {
    patterns := config.patterns;
  }

  /** Rejects a string that some entry already carries; otherwise appends
      an enabled entry for it and reports the outcome of the save. */
  method AddIgnorePattern(config: IgnoreConfig, pattern: string, saveOutcome: Outcome) returns (r: Outcome)
    modifies config
    ensures HasPattern(old(config.patterns), pattern) ==>
              r == Err(PatternAlreadyExists) && config.patterns == old(config.patterns)
    ensures !HasPattern(old(config.patterns), pattern) ==>
              r == saveOutcome && config.patterns == old(config.patterns) + [IgnorePattern(pattern, true)]
  {
    var duplicate := AnyHasPattern(config.patterns, pattern);
    if duplicate {
      return Err(PatternAlreadyExists);
    }
    config.patterns := config.patterns + [IgnorePattern(pattern, true)];
    r := saveOutcome;
  }

  /** Drops every entry carrying `pattern` (none is not an error) and
      reports the outcome of the save. */
  method RemoveIgnorePattern(config: IgnoreConfig, pattern: string, saveOutcome: Outcome) returns (r: Outcome)
    modifies config
    ensures config.patterns == Retained(old(config.patterns), pattern)
    ensures r == saveOutcome
  {
    config.patterns := Retain(config.patterns, pattern);
    r := saveOutcome;
  }

  /** Flips the flag of the first entry carrying `pattern` and reports the
      outcome of the save; fails, changing nothing and saving nothing, when
      no entry carries it. */
  method ToggleIgnorePattern(config: IgnoreConfig, pattern: string, saveOutcome: Outcome) returns (r: Outcome)
    modifies config
    ensures HasPattern(old(config.patterns), pattern) ==>
              r == saveOutcome && config.patterns == Toggled(old(config.patterns), pattern)
    ensures !HasPattern(old(config.patterns), pattern) ==>
              r == Err(PatternNotFound) && config.patterns == old(config.patterns)
  {
    var found := FindPattern(config.patterns, pattern);
    match found {
      case Some(i) =>
        config.patterns := config.patterns[i := config.patterns[i].(enabled := !config.patterns[i].enabled)];
        r := saveOutcome;
      case None =>
        r := Err(PatternNotFound);
    }
  }

  // ---------------------------------------------------------------------
  // Adding

  /** Adding a new string keeps the strings unique. */
  lemma AddKeepsUnique(patterns: seq<IgnorePattern>, pattern: string)
    requires Unique(patterns) && !HasPattern(patterns, pattern)
    ensures Unique(patterns + [IgnorePattern(pattern, true)])
  {
  }

  /** After adding a new string, exactly one entry carries it, the last,
      whatever duplicates of other strings the list holds. */
  lemma AddedOnce(patterns: seq<IgnorePattern>, pattern: string)
    requires !HasPattern(patterns, pattern)
    ensures var added := patterns + [IgnorePattern(pattern, true)];
            forall i :: 0 <= i < |added| ==> (added[i].pattern == pattern <==> i == |patterns|)
  {
  }

  /** After an add the string is present, so adding it again is rejected. */
  lemma AddThenPresent(patterns: seq<IgnorePattern>, pattern: string)
    ensures HasPattern(patterns + [IgnorePattern(pattern, true)], pattern)
  {
    assert (patterns + [IgnorePattern(pattern, true)])[|patterns|].pattern == pattern;
  }

  /** An added entry ignores exactly the paths its pattern selects, on top
      of what was ignored before. */
  lemma AddedIgnores(patterns: seq<IgnorePattern>, pattern: string, path: string)
    ensures Ignored(patterns + [IgnorePattern(pattern, true)], path) <==>
            Ignored(patterns, path) || PathMatches(path, pattern)
  {
    var added := [IgnorePattern(pattern, true)];
    IgnoredConcat(patterns, added, path);
    assert Ignored(added, path) <==> PathMatches(path, pattern) by {
      assert added[0].pattern == pattern && added[0].enabled;
    }
  }

  // ---------------------------------------------------------------------
  // Removing

  /** No entry carrying the removed string is left. */
  lemma RetainedDropsAll(patterns: seq<IgnorePattern>, pattern: string)
    ensures !HasPattern(Retained(patterns, pattern), pattern)
  {
  }

  /** Removal works from the back one entry at a time: an appended entry is
      kept exactly when it carries another string. */
  lemma RetainedSnoc(patterns: seq<IgnorePattern>, last: IgnorePattern, pattern: string)
    ensures Retained(patterns + [last], pattern) ==
            Retained(patterns, pattern) + (if last.pattern != pattern then [last] else [])
  {
    assert (patterns + [last])[..|patterns|] == patterns;
  }

  /** Concatenation is associative (a helper for `RetainedConcat`). */
  lemma AppendAssociative<T>(a: seq<T>, b: seq<T>, c: seq<T>)
    ensures (a + b) + c == a + (b + c)
  {
  }

  /** Every other entry is kept as often as it occurred. */
  lemma {:induction false} RetainedKeepsOthers(patterns: seq<IgnorePattern>, pattern: string, e: IgnorePattern)
    requires e.pattern != pattern
    ensures multiset(Retained(patterns, pattern))[e] == multiset(patterns)[e]
    decreases |patterns|
  {
    if patterns != [] {
      var init, last := patterns[..|patterns| - 1], patterns[|patterns| - 1];
      var tail := if last.pattern != pattern then [last] else [];
      assert patterns == init + [last];
      RetainedKeepsOthers(init, pattern, e);
      RetainedSnoc(init, last, pattern);
      assert multiset(Retained(init, pattern) + tail) == multiset(Retained(init, pattern)) + multiset(tail);
      assert multiset(init + [last]) == multiset(init) + multiset{last};
    }
  }

  /** Removal works entry by entry, so it keeps the relative order: removing
      from two lists put together is removing from each. */
  lemma {:induction false} RetainedConcat(xs: seq<IgnorePattern>, ys: seq<IgnorePattern>, pattern: string)
    ensures Retained(xs + ys, pattern) == Retained(xs, pattern) + Retained(ys, pattern)
    decreases |ys|
  {
    if ys == [] {
      assert xs + ys == xs;
    } else {
      var init, last := ys[..|ys| - 1], ys[|ys| - 1];
      var tail := if last.pattern != pattern then [last] else [];
      assert ys == init + [last];
      RetainedConcat(xs, init, pattern);
      AppendAssociative(xs, init, [last]);
      RetainedSnoc(xs + init, last, pattern);
      RetainedSnoc(init, last, pattern);
      AppendAssociative(Retained(xs, pattern), Retained(init, pattern), tail);
    }
  }

  /** Removing an absent string changes nothing. */
  lemma {:induction false} RetainedAbsent(patterns: seq<IgnorePattern>, pattern: string)
    requires !HasPattern(patterns, pattern)
    ensures Retained(patterns, pattern) == patterns
    decreases |patterns|
  {
    if patterns != [] {
      var init, last := patterns[..|patterns| - 1], patterns[|patterns| - 1];
      assert patterns == init + [last];
      assert !HasPattern(init, pattern) by {
        forall i | 0 <= i < |init| ensures init[i].pattern != pattern {
          assert init[i] == patterns[i];
        }
      }
      RetainedAbsent(init, pattern);
      RetainedSnoc(init, last, pattern);
    }
  }

  /** Removing twice is removing once. */
  lemma RetainedIdempotent(patterns: seq<IgnorePattern>, pattern: string)
    ensures Retained(Retained(patterns, pattern), pattern) == Retained(patterns, pattern)
  {
    RetainedDropsAll(patterns, pattern);
    RetainedAbsent(Retained(patterns, pattern), pattern);
  }

  /** Removal keeps the strings unique. */
  lemma {:induction false} RetainedKeepsUnique(patterns: seq<IgnorePattern>, pattern: string)
    requires Unique(patterns)
    ensures Unique(Retained(patterns, pattern))
    decreases |patterns|
  {
    if patterns != [] {
      var init, last := patterns[..|patterns| - 1], patterns[|patterns| - 1];
      assert patterns == init + [last];
      assert Unique(init) by {
        forall i, j | 0 <= i < j < |init| ensures init[i].pattern != init[j].pattern {
          assert init[i] == patterns[i] && init[j] == patterns[j];
        }
      }
      RetainedKeepsUnique(init, pattern);
      RetainedSnoc(init, last, pattern);
      var r := Retained(init, pattern);
      forall i | 0 <= i < |r| ensures r[i].pattern != last.pattern {
        var j :| 0 <= j < |init| && init[j] == r[i];
        assert patterns[j] == init[j];
      }
    }
  }

  /** Removal never makes a path ignored that was not ignored before, and
      only the removed pattern's paths can stop being ignored. */
  lemma RetainedIgnores(patterns: seq<IgnorePattern>, pattern: string, path: string)
    ensures Ignored(Retained(patterns, pattern), path) ==> Ignored(patterns, path)
    ensures !PathMatches(path, pattern) ==>
              (Ignored(Retained(patterns, pattern), path) <==> Ignored(patterns, path))
  {
    var r := Retained(patterns, pattern);
    if Ignored(r, path) {
      var i :| 0 <= i < |r| && r[i].enabled && PathMatches(path, r[i].pattern);
      var j :| 0 <= j < |patterns| && patterns[j] == r[i];
    }
    if !PathMatches(path, pattern) && Ignored(patterns, path) {
      var j :| 0 <= j < |patterns| && patterns[j].enabled && PathMatches(path, patterns[j].pattern);
      RetainedKeepsOthers(patterns, pattern, patterns[j]);
      assert patterns[j] in multiset(r);
      var i :| 0 <= i < |r| && r[i] == patterns[j];
    }
  }

  // ---------------------------------------------------------------------
  // Toggling

  /** Toggling keeps which strings are present. */
  lemma ToggledKeepsStrings(patterns: seq<IgnorePattern>, pattern: string, other: string)
    requires HasPattern(patterns, pattern)
    ensures HasPattern(Toggled(patterns, pattern), other) <==> HasPattern(patterns, other)
    ensures Unique(Toggled(patterns, pattern)) <==> Unique(patterns)
  {
    var t := Toggled(patterns, pattern);
    if HasPattern(patterns, other) {
      var i :| 0 <= i < |patterns| && patterns[i].pattern == other;
      assert t[i].pattern == other;
    }
  }

  /** Toggling twice restores the list. */
  lemma ToggleTwice(patterns: seq<IgnorePattern>, pattern: string)
    requires HasPattern(patterns, pattern)
    ensures HasPattern(Toggled(patterns, pattern), pattern)
    ensures Toggled(Toggled(patterns, pattern), pattern) == patterns
  {
    ToggledKeepsStrings(patterns, pattern, pattern);
    var t := Toggled(patterns, pattern);
    var tt := Toggled(t, pattern);
    forall j | 0 <= j < |patterns| ensures tt[j] == patterns[j] {
      assert (forall k :: 0 <= k < j ==> t[k].pattern != pattern) <==>
             (forall k :: 0 <= k < j ==> patterns[k].pattern != pattern);
    }
  }

  /** Switching an entry off never makes a path ignored; switching it on
      never stops one being ignored. */
  lemma ToggledIgnores(patterns: seq<IgnorePattern>, pattern: string, path: string)
    requires HasPattern(patterns, pattern)
    ensures patterns[FirstIndex(patterns, pattern)].enabled ==>
              (Ignored(Toggled(patterns, pattern), path) ==> Ignored(patterns, path))
    ensures !patterns[FirstIndex(patterns, pattern)].enabled ==>
              (Ignored(patterns, path) ==> Ignored(Toggled(patterns, pattern), path))
  {
    var t := Toggled(patterns, pattern);
    var f := FirstIndex(patterns, pattern);
    if patterns[f].enabled && Ignored(t, path) {
      var i :| 0 <= i < |t| && t[i].enabled && PathMatches(path, t[i].pattern);
      assert patterns[i] == t[i];
    }
    if !patterns[f].enabled && Ignored(patterns, path) {
      var i :| 0 <= i < |patterns| && patterns[i].enabled && PathMatches(path, patterns[i].pattern);
      assert patterns[i] == t[i];
    }
  }
}
