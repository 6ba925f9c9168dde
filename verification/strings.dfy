/**
 * Go's byte strings and the handful of `strings` package operations the core
 * uses: Split, Join, TrimSpace, HasPrefix and the byte-wise `<` on strings.
 */
module GoStrings {

  /** One byte of a Go string.  A Go string is a sequence of bytes, not of
      code points, so every character here stays below 256. */
  type Byte = c: char | c <= '\U{FF}'

  type GoString = seq<Byte>

  /** The ASCII white space that strings.TrimSpace removes. */
  predicate IsAsciiSpace(c: Byte) {
    c == ' ' || c == '\t' || c == '\n' || c == '\U{B}' || c == '\U{C}' || c == '\r'
  }

  predicate AllSpace(s: GoString) {
    forall i :: 0 <= i < |s| ==> IsAsciiSpace(s[i])
  }

  /** Neither end of `s` is white space. */
  predicate Trimmed(s: GoString) {
    |s| == 0 || (!IsAsciiSpace(s[0]) && !IsAsciiSpace(s[|s| - 1]))
  }

  predicate HasPrefix(s: GoString, prefix: GoString) {
    |prefix| <= |s| && s[..|prefix|] == prefix
  }

  predicate HasSuffix(s: GoString, suffix: GoString) {
    |suffix| <= |s| && s[|s| - |suffix|..] == suffix
  }

  // ---------------------------------------------------------------------------
  // Split and Join
  // ---------------------------------------------------------------------------

  /** strings.Split(s, sep) for a one-byte separator: the pieces between the
      separators, so "" gives [""] and "a/" gives ["a", ""]. */
  function Split(s: GoString, sep: Byte): (parts: seq<GoString>)
    ensures |parts| >= 1
    ensures forall i :: 0 <= i < |parts| ==> sep !in parts[i]
    decreases |s|
  {
    if |s| == 0 then [[]]
    else
      var rest := Split(s[1..], sep);
      if s[0] == sep then [[]] + rest
      else [[s[0]] + rest[0]] + rest[1..]
  }

  /** strings.Join(parts, sep) for a one-byte separator. */
  function Join(parts: seq<GoString>, sep: Byte): (s: GoString)
    decreases |parts|
  {
    if |parts| == 0 then []
    else if |parts| == 1 then parts[0]
    else parts[0] + [sep] + Join(parts[1..], sep)
  }

  /** Joining the pieces of a split gives back the original text. */
  lemma {:induction false} JoinSplit(s: GoString, sep: Byte)
    ensures Join(Split(s, sep), sep) == s
    decreases |s|
  {
    if |s| > 0 {
      var rest := Split(s[1..], sep);
      JoinSplit(s[1..], sep);
      if s[0] == sep {
        assert s == [sep] + s[1..];
      } else {
        if |rest| == 1 {
          assert s == [s[0]] + s[1..];
        } else {
          assert Split(s, sep)[1..] == rest[1..];
          assert Join(rest, sep) == rest[0] + [sep] + Join(rest[1..], sep);
          assert s == [s[0]] + s[1..];
        }
      }
    }
  }

  /** Splitting `a + sep + rest`, where `a` holds no separator, peels `a` off. */
  lemma {:induction false} SplitAfterPiece(a: GoString, sep: Byte, rest: GoString)
    requires sep !in a
    ensures Split(a + [sep] + rest, sep) == [a] + Split(rest, sep)
    decreases |a|
  {
    var s := a + [sep] + rest;
    if |a| == 0 {
      assert s[1..] == rest;
    } else {
      assert s[1..] == a[1..] + [sep] + rest;
      SplitAfterPiece(a[1..], sep, rest);
      assert [a[0]] + a[1..] == a;
    }
  }

  /** A piece without a separator splits into itself. */
  lemma {:induction false} SplitPiece(a: GoString, sep: Byte)
    requires sep !in a
    ensures Split(a, sep) == [a]
    decreases |a|
  {
    if |a| > 0 {
      SplitPiece(a[1..], sep);
      assert [a[0]] + a[1..] == a;
    }
  }

  /** Splitting a join gives back the pieces, provided none of them holds the
      separator: Split and Join are inverse on such non-empty lists. */
  lemma {:induction false} SplitJoin(parts: seq<GoString>, sep: Byte)
    requires |parts| >= 1
    requires forall i :: 0 <= i < |parts| ==> sep !in parts[i]
    ensures Split(Join(parts, sep), sep) == parts
    decreases |parts|
  {
    if |parts| == 1 {
      SplitPiece(parts[0], sep);
    } else {
      SplitJoin(parts[1..], sep);
      SplitAfterPiece(parts[0], sep, Join(parts[1..], sep));
      assert [parts[0]] + parts[1..] == parts;
    }
  }

  // ---------------------------------------------------------------------------
  // TrimSpace
  // ---------------------------------------------------------------------------

  function TrimLeft(s: GoString): (t: GoString)
    ensures |t| <= |s|
    ensures |t| == 0 || !IsAsciiSpace(t[0])
    decreases |s|
  {
    if |s| > 0 && IsAsciiSpace(s[0]) then TrimLeft(s[1..]) else s
  }

  function TrimRight(s: GoString): (t: GoString)
    ensures |t| <= |s|
    ensures |t| == 0 || !IsAsciiSpace(t[|t| - 1])
    decreases |s|
  {
    if |s| > 0 && IsAsciiSpace(s[|s| - 1]) then TrimRight(s[..|s| - 1]) else s
  }

  /** TrimLeft cuts a run of white space off the front and nothing else. */
  lemma {:induction false} TrimLeftCutsSpacePrefix(s: GoString)
    ensures TrimLeft(s) == s[|s| - |TrimLeft(s)|..]
    ensures AllSpace(s[..|s| - |TrimLeft(s)|])
    decreases |s|
  {
    if |s| > 0 && IsAsciiSpace(s[0]) {
      TrimLeftCutsSpacePrefix(s[1..]);
      var n := |s| - |TrimLeft(s)|;
      assert s[1..][..n - 1] == s[1..n];
      assert s[1..][n - 1..] == s[n..];
    }
  }

  /** TrimRight cuts a run of white space off the back and nothing else. */
  lemma {:induction false} TrimRightCutsSpaceSuffix(s: GoString)
    ensures TrimRight(s) == s[..|TrimRight(s)|]
    ensures AllSpace(s[|TrimRight(s)|..])
    decreases |s|
  {
    if |s| > 0 && IsAsciiSpace(s[|s| - 1]) {
      var init := s[..|s| - 1];
      TrimRightCutsSpaceSuffix(init);
      var n := |TrimRight(s)|;
      assert init[..n] == s[..n];
      assert s[n..] == init[n..] + [s[|s| - 1]];
    }
  }

  /** strings.TrimSpace restricted to ASCII white space: leading white space
      is cut first, then trailing white space. */
  function TrimSpace(s: GoString): (t: GoString)
    ensures Trimmed(t)
    ensures |t| <= |s|
  {
    TrimRightCutsSpaceSuffix(TrimLeft(s));
    TrimRight(TrimLeft(s))
  }

  /** TrimSpace cuts only white space, and only at the two ends: its result is
      an infix `s[i..j]` with white space before and after it. */
  lemma TrimSpaceInfix(s: GoString) returns (i: nat, j: nat)
    ensures i <= j <= |s|
    ensures TrimSpace(s) == s[i..j]
    ensures AllSpace(s[..i]) && AllSpace(s[j..])
  {
    var l := TrimLeft(s);
    var t := TrimRight(l);
    TrimLeftCutsSpacePrefix(s);
    TrimRightCutsSpaceSuffix(l);
    i := |s| - |l|;
    j := i + |t|;
    assert l == s[i..];
    assert t == l[..|t|] == s[i..j];
    assert s[j..] == l[|t|..];
  }

  lemma {:induction false} TrimLeftOfSpacePrefix(p: GoString, x: GoString)
    requires AllSpace(p)
    requires |x| == 0 || !IsAsciiSpace(x[0])
    ensures TrimLeft(p + x) == x
    decreases |p|
  {
    if |p| > 0 {
      assert (p + x)[1..] == p[1..] + x;
      TrimLeftOfSpacePrefix(p[1..], x);
    } else {
      assert p + x == x;
    }
  }

  lemma {:induction false} TrimRightOfSpaceSuffix(x: GoString, q: GoString)
    requires AllSpace(q)
    requires |x| == 0 || !IsAsciiSpace(x[|x| - 1])
    ensures TrimRight(x + q) == x
    decreases |q|
  {
    if |q| > 0 {
      assert (x + q)[..|x + q| - 1] == x + q[..|q| - 1];
      TrimRightOfSpaceSuffix(x, q[..|q| - 1]);
    } else {
      assert x + q == x;
    }
  }

  /** The converse of TrimSpaceInfix: whenever `s` is a trimmed text padded
      with white space on both sides, TrimSpace recovers exactly that text. */
  lemma TrimSpaceOfPadded(p: GoString, t: GoString, q: GoString)
    requires AllSpace(p) && AllSpace(q) && Trimmed(t)
    ensures TrimSpace(p + t + q) == t
  {
    if |t| == 0 {
      assert p + t + q == p + q;
      TrimLeftOfSpacePrefix(p + q, []);
      assert p + q + [] == p + q;
    } else {
      assert p + t + q == p + (t + q);
      TrimLeftOfSpacePrefix(p, t + q);
      TrimRightOfSpaceSuffix(t, q);
    }
  }

  // ---------------------------------------------------------------------------
  // Byte-wise ordering (Go's `<` on strings)
  // ---------------------------------------------------------------------------

  /** Go's `a < b` on strings: lexicographic by byte value, a proper prefix
      sorting first. */
  predicate Less(a: GoString, b: GoString): (r: bool)
    ensures r ==> a != b
    ensures HasPrefix(b, a) ==> (r <==> |a| < |b|)
    decreases |a|
  {
    if |a| == 0 then |b| > 0
    else |b| > 0 && (a[0] < b[0] || (a[0] == b[0] && Less(a[1..], b[1..])))
  }

  /** `a` is a proper prefix of `b`, or the first byte where they differ is
      smaller in `a`: the textbook definition of lexicographic order. */
  ghost predicate LexBefore(a: GoString, b: GoString) {
    (|a| < |b| && b[..|a|] == a)
    || exists k :: 0 <= k < |a| && k < |b| && a[..k] == b[..k] && a[k] < b[k]
  }

  /** With equal first bytes, lexicographic order is decided by the tails. */
  lemma LexBeforeOfTails(a: GoString, b: GoString)
    requires |a| > 0 && |b| > 0 && a[0] == b[0]
    ensures LexBefore(a, b) <==> LexBefore(a[1..], b[1..])
  {
    if LexBefore(a[1..], b[1..]) {
      if |a[1..]| < |b[1..]| && b[1..][..|a[1..]|] == a[1..] {
        assert b[..|a|] == [b[0]] + b[1..][..|a[1..]|];
        assert a == [a[0]] + a[1..];
      } else {
        var k :| 0 <= k < |a[1..]| && k < |b[1..]| && a[1..][..k] == b[1..][..k] && a[1..][k] < b[1..][k];
        assert a[..k + 1] == [a[0]] + a[1..][..k];
        assert b[..k + 1] == [b[0]] + b[1..][..k];
      }
    }
    if LexBefore(a, b) {
      if |a| < |b| && b[..|a|] == a {
        assert b[1..][..|a[1..]|] == a[1..];
      } else {
        var k :| 0 <= k < |a| && k < |b| && a[..k] == b[..k] && a[k] < b[k];
        assert k > 0;
        assert a[1..][..k - 1] == a[..k][1..] == b[..k][1..] == b[1..][..k - 1];
        assert a[1..][k - 1] < b[1..][k - 1];
      }
    }
  }

  /** A larger first byte puts `a` after `b`. */
  lemma NotLexBeforeOfLargerHead(a: GoString, b: GoString)
    requires |a| > 0 && |b| > 0 && a[0] > b[0]
    ensures !LexBefore(a, b)
  {
    forall k | 0 <= k < |a| && k < |b| && a[..k] == b[..k]
      ensures !(a[k] < b[k])
    {
    }
    if |a| < |b| { assert b[..|a|][0] == b[0]; }
  }

  /** The recursive comparison agrees with the textbook definition. */
  lemma {:induction false} LessIsLexicographic(a: GoString, b: GoString)
    ensures Less(a, b) <==> LexBefore(a, b)
    decreases |a|
  {
    if |a| == 0 {
      if |b| > 0 { assert b[..0] == a; }
    } else if |b| == 0 {
    } else if a[0] < b[0] {
      assert a[..0] == b[..0];
    } else if a[0] > b[0] {
      NotLexBeforeOfLargerHead(a, b);
    } else {
      LessIsLexicographic(a[1..], b[1..]);
      LexBeforeOfTails(a, b);
    }
  }

  lemma {:induction false} LessIrreflexive(a: GoString)
    ensures !Less(a, a)
    decreases |a|
  {
    if |a| > 0 { LessIrreflexive(a[1..]); }
  }

  lemma {:induction false} LessTransitive(a: GoString, b: GoString, c: GoString)
    requires Less(a, b) && Less(b, c)
    ensures Less(a, c)
    decreases |a|
  {
    if |a| > 0 && a[0] == b[0] && b[0] == c[0] {
      LessTransitive(a[1..], b[1..], c[1..]);
    }
  }

  /** Any two strings are equal or ordered one way or the other. */
  lemma {:induction false} LessTrichotomy(a: GoString, b: GoString)
    ensures a == b || Less(a, b) || Less(b, a)
    decreases |a|
  {
    if |a| > 0 && |b| > 0 && a[0] == b[0] {
      LessTrichotomy(a[1..], b[1..]);
      if a[1..] == b[1..] {
        assert a == [a[0]] + a[1..] && b == [b[0]] + b[1..];
      }
    }
  }
}
