/**
 * The glob mask (pkg/mask/glob.go): rule lines in gitignore syntax, compiled
 * in order, decide which entries are included; everything else is masked.
 *
 * How one gitignore pattern matches one path belongs to go-git and is not
 * modelled: it is the parameter `pm`.  What is modelled is how the verdicts
 * of the patterns combine: the last pattern that matches decides, and a path
 * no pattern matches is not selected.
 */
module Mask {
  import opened Wrappers
  import opened GoStrings
  import opened Errors
  import opened Index

  /** A parsed gitignore pattern, known by the trimmed rule line it came from. */
  datatype Pattern = Pattern(source: GoString)

  /** The verdict of one pattern on one path.  go-git calls `Select` Exclude
      (an ignore pattern matched) and `Deselect` Include (a `!` pattern
      matched); the mask reads them the other way round. */
  datatype MatchResult = NoMatch | Select | Deselect

  /** One pattern's verdict on the segments of a path and its directory flag. */
  type PatternMatch = (Pattern, seq<GoString>, bool) -> MatchResult

  /** The compiled mask: its patterns in declaration order. */
  datatype GlobMask = GlobMask(patterns: seq<Pattern>)

  // ---------------------------------------------------------------------------
  // Compiling the rules text
  // ---------------------------------------------------------------------------

  /** A trimmed line that is a rule: neither blank nor a `#` comment. */
  predicate IsRuleLine(line: GoString) {
    line != [] && line[0] != '#'
  }

  /** What every compiled pattern's source is: a trimmed rule line. */
  predicate IsPatternSource(p: Pattern) {
    IsRuleLine(p.source) && Trimmed(p.source)
  }

  /** The patterns of the given lines, in order. */
  function CompileLines(lines: seq<GoString>): (ps: seq<Pattern>)
    ensures |ps| <= |lines|
    ensures forall k :: 0 <= k < |ps| ==> IsPatternSource(ps[k])
    decreases |lines|
  {
    if |lines| == 0 then []
    else
      var line := TrimSpace(lines[0]);
      (if IsRuleLine(line) then [Pattern(line)] else []) + CompileLines(lines[1..])
  }

  /** NewGlobMask: split the rules text on newlines, trim every line, drop
      blank lines and comments, and keep the rest in order.  It never fails. */
  function NewGlobMask(rules: GoString): (r: Result<GlobMask, Error>)
    ensures r.Ok?
    ensures forall k :: 0 <= k < |r.value.patterns| ==> IsPatternSource(r.value.patterns[k])
  {
    Ok(GlobMask(CompileLines(Split(rules, '\n'))))
  }

  /** Compiling distributes over concatenated line lists. */
  lemma {:induction false} CompileLinesAppend(a: seq<GoString>, b: seq<GoString>)
    ensures CompileLines(a + b) == CompileLines(a) + CompileLines(b)
    decreases |a|
  {
    if |a| == 0 {
      assert a + b == b;
    } else {
      var ab := a + b;
      assert ab[0] == a[0];
      assert ab[1..] == a[1..] + b;
      CompileLinesAppend(a[1..], b);
      var line := TrimSpace(a[0]);
      var head := if IsRuleLine(line) then [Pattern(line)] else [];
      calc {
        CompileLines(ab);
        head + CompileLines(a[1..] + b);
        head + (CompileLines(a[1..]) + CompileLines(b));
        (head + CompileLines(a[1..])) + CompileLines(b);
        CompileLines(a) + CompileLines(b);
      }
    }
  }

  /** Rules text made only of blank and comment lines compiles to no pattern. */
  lemma {:induction false} CompileWithoutRules(lines: seq<GoString>)
    requires forall i :: 0 <= i < |lines| ==> !IsRuleLine(TrimSpace(lines[i]))
    ensures CompileLines(lines) == []
    decreases |lines|
  {
    if |lines| > 0 {
      assert forall i :: 0 <= i < |lines[1..]| ==> lines[1..][i] == lines[i + 1];
      CompileWithoutRules(lines[1..]);
    }
  }

  /** One line compiles to its trimmed text exactly when that text is a rule. */
  lemma CompileOneLine(line: GoString)
    ensures CompileLines([line]) == if IsRuleLine(TrimSpace(line)) then [Pattern(TrimSpace(line))] else []
  {
    assert [line][1..] == [];
  }

  /** The lines of a rules text that was written line by line. */
  lemma {:induction false} NewGlobMaskOfLines(lines: seq<GoString>)
    requires IsLineList(lines)
    ensures NewGlobMask(Join(lines, '\n')).value.patterns == CompileLines(lines)
  {
    if |lines| == 0 {
      assert Split([], '\n') == [[]];
      CompileOneLine([]);
    } else {
      SplitJoin(lines, '\n');
    }
  }

  /** Lines that hold no newline, as the lines of a split text do. */
  predicate IsLineList(lines: seq<GoString>) {
    forall i :: 0 <= i < |lines| ==> '\n' !in lines[i]
  }

  /** Dropping a line that is not a rule leaves the compiled patterns as they are. */
  lemma DropIgnoredLine(before: seq<GoString>, line: GoString, after: seq<GoString>)
    requires !IsRuleLine(TrimSpace(line))
    ensures CompileLines(before + [line] + after) == CompileLines(before + after)
  {
    CompileLinesAppend(before + [line], after);
    CompileLinesAppend(before, [line]);
    CompileLinesAppend(before, after);
    CompileOneLine(line);
    assert CompileLines(before) + [] == CompileLines(before);
  }

  /** Inserting a blank or comment line anywhere in the rules text leaves the
      compiled mask unchanged, so no verdict changes either. */
  lemma IgnoredLineChangesNothing(before: seq<GoString>, line: GoString, after: seq<GoString>)
    requires IsLineList(before) && IsLineList(after)
    requires '\n' !in line && !IsRuleLine(TrimSpace(line))
    ensures NewGlobMask(Join(before + [line] + after, '\n')) == NewGlobMask(Join(before + after, '\n'))
  {
    var withLine := before + [line] + after;
    var without := before + after;
    assert IsLineList(withLine) by {
      forall i | 0 <= i < |withLine| ensures '\n' !in withLine[i] {
        if i < |before| { assert withLine[i] == before[i]; }
        else if i > |before| { assert withLine[i] == after[i - |before| - 1]; }
      }
    }
    assert IsLineList(without) by {
      forall i | 0 <= i < |without| ensures '\n' !in without[i] {
        if i < |before| { assert without[i] == before[i]; }
        else { assert without[i] == after[i - |before|]; }
      }
    }
    NewGlobMaskOfLines(withLine);
    NewGlobMaskOfLines(without);
    DropIgnoredLine(before, line, after);
  }

  // ---------------------------------------------------------------------------
  // Combining the verdicts
  // ---------------------------------------------------------------------------

  /** go-git's Matcher.Match: scan the patterns from the last one back, and
      let the first that matches at all decide. */
  function MatcherMatch(pm: PatternMatch, ps: seq<Pattern>, path: seq<GoString>, isDir: bool): (r: bool)
    ensures r ==> exists i :: 0 <= i < |ps| && pm(ps[i], path, isDir) == Select
    decreases |ps|
  {
    if |ps| == 0 then false
    else
      var verdict := pm(ps[|ps| - 1], path, isDir);
      if verdict != NoMatch then verdict == Select
      else MatcherMatch(pm, ps[..|ps| - 1], path, isDir)
  }

  /** Pattern `i` matches, and no later pattern does. */
  ghost predicate IsLastMatch(pm: PatternMatch, ps: seq<Pattern>, path: seq<GoString>, isDir: bool, i: int) {
    && 0 <= i < |ps|
    && pm(ps[i], path, isDir) != NoMatch
    && forall j :: i < j < |ps| ==> pm(ps[j], path, isDir) == NoMatch
  }

  /** The documented rule: the last matching pattern selects the path. */
  ghost predicate SelectedByLastMatch(pm: PatternMatch, ps: seq<Pattern>, path: seq<GoString>, isDir: bool) {
    exists i :: IsLastMatch(pm, ps, path, isDir, i) && pm(ps[i], path, isDir) == Select
  }

  /** Last match wins: the matcher selects a path exactly when the last
      pattern that matches it is a selecting one. */
  lemma {:induction false} LastMatchWins(pm: PatternMatch, ps: seq<Pattern>, path: seq<GoString>, isDir: bool)
    ensures MatcherMatch(pm, ps, path, isDir) <==> SelectedByLastMatch(pm, ps, path, isDir)
    decreases |ps|
  {
    if |ps| > 0 {
      var n := |ps| - 1;
      var init := ps[..n];
      if pm(ps[n], path, isDir) != NoMatch {
        assert IsLastMatch(pm, ps, path, isDir, n);
        if SelectedByLastMatch(pm, ps, path, isDir) {
          var i :| IsLastMatch(pm, ps, path, isDir, i) && pm(ps[i], path, isDir) == Select;
          assert i == n;
        }
      } else {
        LastMatchWins(pm, init, path, isDir);
        if SelectedByLastMatch(pm, init, path, isDir) {
          var i :| IsLastMatch(pm, init, path, isDir, i) && pm(init[i], path, isDir) == Select;
          assert IsLastMatch(pm, ps, path, isDir, i);
        }
        if SelectedByLastMatch(pm, ps, path, isDir) {
          var i :| IsLastMatch(pm, ps, path, isDir, i) && pm(ps[i], path, isDir) == Select;
          assert i < n;
          assert IsLastMatch(pm, init, path, isDir, i);
        }
      }
    }
  }

  /** A path no pattern matches is not selected. */
  lemma {:induction false} NoMatchSelectsNothing(pm: PatternMatch, ps: seq<Pattern>, path: seq<GoString>, isDir: bool)
    requires forall i :: 0 <= i < |ps| ==> pm(ps[i], path, isDir) == NoMatch
    ensures !MatcherMatch(pm, ps, path, isDir)
    decreases |ps|
  {
    if |ps| > 0 {
      NoMatchSelectsNothing(pm, ps[..|ps| - 1], path, isDir);
    }
  }

  /** Later rules override earlier ones: once some rule of `later` matches,
      the rules before it make no difference. */
  lemma {:induction false} LaterRulesOverride(pm: PatternMatch, earlier: seq<Pattern>, later: seq<Pattern>,
                                              path: seq<GoString>, isDir: bool)
    requires exists j :: 0 <= j < |later| && pm(later[j], path, isDir) != NoMatch
    ensures MatcherMatch(pm, earlier + later, path, isDir) == MatcherMatch(pm, later, path, isDir)
    decreases |later|
  {
    var all := earlier + later;
    var n := |later| - 1;
    assert all[|all| - 1] == later[n];
    if pm(later[n], path, isDir) == NoMatch {
      assert all[..|all| - 1] == earlier + later[..n];
      var j :| 0 <= j < |later| && pm(later[j], path, isDir) != NoMatch;
      assert later[..n][j] == later[j];
      LaterRulesOverride(pm, earlier, later[..n], path, isDir);
    }
  }

  // ---------------------------------------------------------------------------
  // The mask verdict
  // ---------------------------------------------------------------------------

  /** GlobMask.Masked: a nil entry is masked (fail closed); otherwise the entry
      is masked unless the patterns select its slash-separated path. */
  function Masked(m: GlobMask, pm: PatternMatch, entry: Option<Entry>): (masked: bool)
    ensures entry.None? ==> masked
    ensures entry.Some? ==>
      (masked <==> !SelectedByLastMatch(pm, m.patterns, Split(entry.value.fsPath, '/'), entry.value.isDir))
  {
    if entry.None? then true
    else
      LastMatchWins(pm, m.patterns, Split(entry.value.fsPath, '/'), entry.value.isDir);
      !MatcherMatch(pm, m.patterns, Split(entry.value.fsPath, '/'), entry.value.isDir)
  }

  /** The verdict reads only the entry's path and directory flag: its name,
      size, mode, time and link play no part. */
  lemma MaskedReadsOnlyPathAndKind(m: GlobMask, pm: PatternMatch, e1: Entry, e2: Entry)
    requires e1.fsPath == e2.fsPath && e1.isDir == e2.isDir
    ensures Masked(m, pm, Some(e1)) == Masked(m, pm, Some(e2))
  {
  }

  /** With no rules at all every entry is masked. */
  lemma EmptyRulesMaskEverything(pm: PatternMatch, entry: Option<Entry>)
    ensures Masked(GlobMask([]), pm, entry)
  {
  }

  /** An entry that no rule matches is masked. */
  lemma UnmatchedEntryIsMasked(m: GlobMask, pm: PatternMatch, e: Entry)
    requires forall i :: 0 <= i < |m.patterns| ==> pm(m.patterns[i], Split(e.fsPath, '/'), e.isDir) == NoMatch
    ensures Masked(m, pm, Some(e))
  {
    NoMatchSelectsNothing(pm, m.patterns, Split(e.fsPath, '/'), e.isDir);
  }

  /** go-git's polarity: only a `!` pattern can deselect, and a `!` pattern
      never selects. */
  ghost predicate RespectsPolarity(pm: PatternMatch) {
    forall p, path, isDir ::
      (pm(p, path, isDir) == Select ==> !HasPrefix(p.source, "!"))
      && (pm(p, path, isDir) == Deselect ==> HasPrefix(p.source, "!"))
  }

  /** Under go-git's polarity, the last rule that matches an entry decides it:
      the entry is masked exactly when that rule is a `!` rule. */
  lemma LastMatchingRuleDecides(m: GlobMask, pm: PatternMatch, e: Entry, i: int)
    requires RespectsPolarity(pm)
    requires IsLastMatch(pm, m.patterns, Split(e.fsPath, '/'), e.isDir, i)
    ensures Masked(m, pm, Some(e)) <==> HasPrefix(m.patterns[i].source, "!")
  {
    var path := Split(e.fsPath, '/');
    if SelectedByLastMatch(pm, m.patterns, path, e.isDir) {
      var k :| IsLastMatch(pm, m.patterns, path, e.isDir, k) && pm(m.patterns[k], path, e.isDir) == Select;
      assert k == i;
    }
  }

  /** With rules `glob`, `!name`, `name` (a single-segment `name`), the file
      `name` is included whenever its own rule matches it: the last rule
      overrides the negation before it. */
  lemma LaterRuleReincludes(pm: PatternMatch, glob: GoString, name: GoString, e: Entry)
    requires RespectsPolarity(pm)
    requires '/' !in name && !HasPrefix(name, "!")
    requires e.fsPath == name
    requires pm(Pattern(name), [name], e.isDir) != NoMatch
    ensures !Masked(GlobMask([Pattern(glob), Pattern("!" + name), Pattern(name)]), pm, Some(e))
  {
    var m := GlobMask([Pattern(glob), Pattern("!" + name), Pattern(name)]);
    SplitPiece(name, '/');
    assert IsLastMatch(pm, m.patterns, Split(e.fsPath, '/'), e.isDir, 2);
    LastMatchingRuleDecides(m, pm, e, 2);
  }

  /** Without `!` rules nothing is ever deselected: any rule that matches a
      path selects it. */
  lemma {:induction false} PositiveRulesSelectEveryMatch(pm: PatternMatch, ps: seq<Pattern>, path: seq<GoString>,
                                                         isDir: bool)
    requires RespectsPolarity(pm)
    requires forall k :: 0 <= k < |ps| ==> !HasPrefix(ps[k].source, "!")
    requires exists i :: 0 <= i < |ps| && pm(ps[i], path, isDir) != NoMatch
    ensures MatcherMatch(pm, ps, path, isDir)
    decreases |ps|
  {
    var n := |ps| - 1;
    if pm(ps[n], path, isDir) == NoMatch {
      var i :| 0 <= i < |ps| && pm(ps[i], path, isDir) != NoMatch;
      assert ps[..n][i] == ps[i];
      PositiveRulesSelectEveryMatch(pm, ps[..n], path, isDir);
    }
  }

  /** In a mask without `!` rules every line includes what it matches: an
      entry is shown exactly when some rule matches it.  A directory rule
      such as `secrets/` therefore adds entries; it never hides them. */
  lemma UnnegatedRulesShowEveryMatch(m: GlobMask, pm: PatternMatch, e: Entry)
    requires RespectsPolarity(pm)
    requires forall k :: 0 <= k < |m.patterns| ==> !HasPrefix(m.patterns[k].source, "!")
    ensures !Masked(m, pm, Some(e)) <==>
      exists i :: 0 <= i < |m.patterns| && pm(m.patterns[i], Split(e.fsPath, '/'), e.isDir) != NoMatch
  {
    var path := Split(e.fsPath, '/');
    if exists i :: 0 <= i < |m.patterns| && pm(m.patterns[i], path, e.isDir) != NoMatch {
      PositiveRulesSelectEveryMatch(pm, m.patterns, path, e.isDir);
    } else {
      NoMatchSelectsNothing(pm, m.patterns, path, e.isDir);
    }
  }
}
