/**
 * Lexical path cleaning and joining, as Go's path/filepath (and path) do it
 * on a slash-separated system, plus the io/fs rule for valid names.
 *
 * Clean works segment by segment: empty and `.` segments vanish, `..` removes
 * the segment before it, a `..` at the start of a rooted path is dropped, and
 * a `..` at the start of a relative path is kept.  An empty result is `.`.
 */
module FilePath {
  import opened GoStrings

  /** A segment that can survive cleaning. */
  predicate IsKeptSegment(seg: GoString) {
    |seg| > 0 && '/' !in seg && seg != "."
  }

  /** The segments a cleaned path is made of: no empty or `.` segment, `..`
      only as a leading run, and no `..` at all under the root. */
  ghost predicate IsCleanStack(st: seq<GoString>, rooted: bool) {
    && (forall i :: 0 <= i < |st| ==> IsKeptSegment(st[i]))
    && (forall i, j :: 0 <= i < j < |st| && st[j] == ".." ==> st[i] == "..")
    && (rooted ==> forall i :: 0 <= i < |st| ==> st[i] != "..")
  }

  /** One step of cleaning: push `seg` onto the segments kept so far. */
  function Step(stack: seq<GoString>, seg: GoString, rooted: bool): (next: seq<GoString>) {
    if seg == [] || seg == "." then stack
    else if seg == ".." then
      if |stack| > 0 && stack[|stack| - 1] != ".." then stack[..|stack| - 1]
      else if rooted then stack
      else stack + [".."]
    else stack + [seg]
  }

  /** Cleaning a list of segments onto the stack already built. */
  function Reduce(stack: seq<GoString>, segs: seq<GoString>, rooted: bool): (result: seq<GoString>)
    decreases |segs|
  {
    if |segs| == 0 then stack else Reduce(Step(stack, segs[0], rooted), segs[1..], rooted)
  }

  lemma StepKeepsClean(stack: seq<GoString>, seg: GoString, rooted: bool)
    requires IsCleanStack(stack, rooted) && '/' !in seg
    ensures IsCleanStack(Step(stack, seg, rooted), rooted)
  {
    if seg == ".." && !(|stack| > 0 && stack[|stack| - 1] != "..") && !rooted {
      var st := stack + [".."];
      forall i, j | 0 <= i < j < |st| && st[j] == ".." ensures st[i] == ".." {
        if j < |stack| {
        } else {
          assert stack[|stack| - 1] == "..";
          if i < |stack| - 1 {
            assert stack[i] == "..";
          }
        }
      }
    }
  }

  lemma {:induction false} ReduceKeepsClean(stack: seq<GoString>, segs: seq<GoString>, rooted: bool)
    requires IsCleanStack(stack, rooted)
    requires forall i :: 0 <= i < |segs| ==> '/' !in segs[i]
    ensures IsCleanStack(Reduce(stack, segs, rooted), rooted)
    decreases |segs|
  {
    if |segs| > 0 {
      StepKeepsClean(stack, segs[0], rooted);
      ReduceKeepsClean(Step(stack, segs[0], rooted), segs[1..], rooted);
    }
  }

  /** Reducing segments that are already clean keeps every one of them. */
  lemma {:induction false} ReduceOfCleanStack(acc: seq<GoString>, st: seq<GoString>, rooted: bool)
    requires IsCleanStack(acc + st, rooted)
    ensures Reduce(acc, st, rooted) == acc + st
    decreases |st|
  {
    if |st| > 0 {
      var all := acc + st;
      assert all[|acc|] == st[0];
      if st[0] == ".." {
        assert !rooted;
        if |acc| > 0 {
          assert all[|acc| - 1] == acc[|acc| - 1];
        }
      }
      assert Step(acc, st[0], rooted) == acc + [st[0]];
      assert (acc + [st[0]]) + st[1..] == all;
      ReduceOfCleanStack(acc + [st[0]], st[1..], rooted);
    } else {
      assert acc + st == acc;
    }
  }

  /** The text of a cleaned path from its segments. */
  function Render(st: seq<GoString>, rooted: bool): (p: GoString) {
    if rooted then "/" + Join(st, '/')
    else if |st| == 0 then "."
    else Join(st, '/')
  }

  /** `p` is `.`, `/`, or an optional `/` followed by clean segments. */
  ghost predicate IsClean(p: GoString) {
    p == "." || p == "/" ||
    (|p| > 0 &&
      var rooted := p[0] == '/';
      var body := if rooted then p[1..] else p;
      |body| > 0 && IsCleanStack(Split(body, '/'), rooted))
  }

  lemma JoinStartsWithFirst(st: seq<GoString>)
    requires |st| > 0
    ensures |Join(st, '/')| >= |st[0]| && Join(st, '/')[..|st[0]|] == st[0]
  {
  }

  lemma RenderIsClean(st: seq<GoString>, rooted: bool)
    requires IsCleanStack(st, rooted)
    ensures IsClean(Render(st, rooted))
    ensures |Render(st, rooted)| > 0
    ensures Render(st, rooted)[0] == '/' <==> rooted
  {
    if |st| > 0 {
      SplitJoin(st, '/');
      JoinStartsWithFirst(st);
      var body := Join(st, '/');
      assert body[0] == st[0][0];
      if rooted {
        assert Render(st, rooted)[1..] == body;
      }
    }
  }

  /** filepath.Clean: the shortest lexically equivalent path. */
  function Clean(path: GoString): (c: GoString)
    ensures IsClean(c)
    ensures |c| > 0
    ensures c[0] == '/' <==> |path| > 0 && path[0] == '/'
  {
    var rooted := |path| > 0 && path[0] == '/';
    var segs := Split(path, '/');
    ReduceKeepsClean([], segs, rooted);
    RenderIsClean(Reduce([], segs, rooted), rooted);
    Render(Reduce([], segs, rooted), rooted)
  }

  /** A clean path is a fixed point of Clean. */
  lemma CleanOfClean(p: GoString)
    requires IsClean(p)
    ensures Clean(p) == p
  {
    if p == "." {
      assert Split(p, '/') == ["."];
    } else if p == "/" {
      assert Split(p, '/') == [[], []];
      assert Reduce([], [[]], true) == Reduce([], [], true) == [];
      assert Reduce([], Split(p, '/'), true) == Reduce([], [[]], true);
      assert Join([], '/') == [];
    } else {
      var rooted := p[0] == '/';
      var body := if rooted then p[1..] else p;
      var st := Split(body, '/');
      if rooted {
        assert p == "/" + body;
        assert Split(p, '/') == [[]] + st;
        assert Reduce([], Split(p, '/'), true) == Reduce([], st, true);
      }
      assert [] + st == st;
      ReduceOfCleanStack([], st, rooted);
      JoinSplit(body, '/');
    }
  }

  /** Cleaning twice is cleaning once. */
  lemma CleanIdempotent(p: GoString)
    ensures Clean(Clean(p)) == Clean(p)
  {
    CleanOfClean(Clean(p));
  }

  /** A rooted path never climbs above the root: no `..` survives cleaning. */
  lemma RootedCleanHasNoDotDot(p: GoString)
    requires |p| > 0 && p[0] == '/'
    ensures Clean(p) == "/" || forall seg :: seg in Split(Clean(p)[1..], '/') ==> seg != ".."
  {
  }

  /** filepath.Join(dir, name): the non-empty arguments joined by `/` and
      cleaned; the empty string when both are empty. */
  function JoinPath(dir: GoString, name: GoString): (r: GoString)
    ensures r == [] <==> dir == [] && name == []
    ensures r != [] ==> IsClean(r)
  {
    if dir != [] then Clean(dir + "/" + name)
    else if name != [] then Clean(name)
    else []
  }

  /** io/fs's ValidPath without its UTF-8 check: `.` or slash-separated
      elements none of which is empty, `.` or `..`. */
  predicate ValidName(p: GoString) {
    p == "." || forall seg :: seg in Split(p, '/') ==> seg != [] && seg != "." && seg != ".."
  }

  /** A valid name other than `.` is a clean relative path with no `..`:
      it cannot reach outside the directory it is resolved in. */
  lemma ValidNameIsContained(p: GoString)
    requires ValidName(p) && p != "."
    ensures |p| > 0 && p[0] != '/'
    ensures IsClean(p)
    ensures p != ".."
  {
    var st := Split(p, '/');
    assert st[0] in st;
    SplitPiece("..", '/');
    forall i | 0 <= i < |st| ensures IsKeptSegment(st[i]) && st[i] != ".." {
      assert st[i] in st;
    }
  }

  /** The paths that would leave the served root: rooted ones, and those
      whose first segment is `..`. */
  predicate LeavesRoot(p: GoString) {
    (|p| > 0 && p[0] == '/') || Split(p, '/')[0] == ".."
  }

  /** Once `..` leads the stack of a relative path, no later step removes it. */
  lemma {:induction false} ReduceKeepsLeadingDotDot(stack: seq<GoString>, segs: seq<GoString>)
    requires |stack| > 0 && stack[0] == ".."
    ensures var r := Reduce(stack, segs, false); |r| > 0 && r[0] == ".."
    decreases |segs|
  {
    if |segs| > 0 {
      var next := Step(stack, segs[0], false);
      assert |next| > 0 && next[0] == ".." by {
        if segs[0] == ".." && |stack| > 0 && stack[|stack| - 1] != ".." {
          assert |stack| > 1;
        }
      }
      ReduceKeepsLeadingDotDot(next, segs[1..]);
    }
  }

  /** Cleaning never turns a path that leaves the root into one that stays
      inside it. */
  lemma CleanKeepsLeavingRoot(p: GoString)
    requires LeavesRoot(p)
    ensures LeavesRoot(Clean(p))
  {
    if !(|p| > 0 && p[0] == '/') {
      var segs := Split(p, '/');
      assert Step([], segs[0], false) == [".."];
      ReduceKeepsLeadingDotDot([".."], segs[1..]);
      var st := Reduce([], segs, false);
      assert st == Reduce([".."], segs[1..], false);
      ReduceKeepsClean([], segs, false);
      SplitJoin(st, '/');
    }
  }

  /** A path that leaves the root is not a valid io/fs name. */
  lemma LeavingRootIsInvalid(p: GoString)
    requires LeavesRoot(p)
    ensures !ValidName(p)
  {
    assert Split(p, '/')[0] in Split(p, '/');
    if |p| > 0 && p[0] == '/' {
      assert Split(p, '/')[0] == [];
    } else {
      assert p != "." by {
        SplitPiece(".", '/');
      }
    }
  }

  /** A valid name is already clean. */
  lemma CleanOfValidName(p: GoString)
    requires ValidName(p)
    ensures Clean(p) == p
  {
    if p == "." {
      CleanOfClean(p);
    } else {
      ValidNameIsContained(p);
      CleanOfClean(p);
    }
  }
}
