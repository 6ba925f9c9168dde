/**
 * Percent-encoding of one URL path segment, as net/url's PathEscape and
 * PathUnescape do it: section 2.1 of RFC 3986 for the `%XX` triplets, with the
 * reserved characters allowed in a path segment by section 3.3 (`$ & + : = @`)
 * left as they are and `/ ; , ?` escaped.
 */
module PercentEncoding {
  import opened GoStrings
  import opened Wrappers

  /** The unreserved characters of section 2.3 of RFC 3986. */
  predicate IsUnreserved(c: Byte) {
    ('a' <= c <= 'z') || ('A' <= c <= 'Z') || ('0' <= c <= '9')
    || c == '-' || c == '_' || c == '.' || c == '~'
  }

  /** Whether PathEscape replaces `c` by a `%XX` triplet. */
  predicate ShouldEscape(c: Byte) {
    !IsUnreserved(c) && !(c == '$' || c == '&' || c == '+' || c == ':' || c == '=' || c == '@')
  }

  predicate IsHex(c: Byte) {
    ('0' <= c <= '9') || ('a' <= c <= 'f') || ('A' <= c <= 'F')
  }

  /** The value of one hexadecimal digit, either case. */
  function Unhex(c: Byte): (v: nat)
    requires IsHex(c)
    ensures v < 16
  {
    if '0' <= c <= '9' then c as int - '0' as int
    else if 'a' <= c <= 'f' then c as int - 'a' as int + 10
    else c as int - 'A' as int + 10
  }

  /** The upper-case digit for a value below 16 (Go writes "0123456789ABCDEF"). */
  function HexDigit(v: nat): (c: Byte)
    requires v < 16
    ensures IsHex(c) && Unhex(c) == v
    ensures !('a' <= c <= 'f')
  {
    if v < 10 then ('0' as int + v) as char else ('A' as int + v - 10) as char
  }

  function EscapeByte(c: Byte): (e: GoString)
    ensures ShouldEscape(c) ==> |e| == 3 && e[0] == '%' && IsHex(e[1]) && IsHex(e[2])
                                && 16 * Unhex(e[1]) + Unhex(e[2]) == c as int
    ensures !ShouldEscape(c) ==> e == [c]
  {
    if ShouldEscape(c) then ['%', HexDigit(c as int / 16), HexDigit(c as int % 16)] else [c]
  }

  /** url.PathEscape: every byte that may not appear in a path segment becomes
      a `%XX` triplet.  In particular `/` becomes `%2F`, so the result is one
      segment and never contains a slash. */
  function PathEscape(s: GoString): (e: GoString)
    ensures '/' !in e
    ensures forall i :: 0 <= i < |e| ==> e[i] == '%' || !ShouldEscape(e[i])
    ensures |s| <= |e| <= 3 * |s|
    decreases |s|
  {
    if |s| == 0 then [] else EscapeByte(s[0]) + PathEscape(s[1..])
  }

  /** The error url.PathUnescape reports: the malformed triplet, cut to at
      most three bytes. */
  datatype EscapeError = EscapeError(fragment: GoString)

  /** url.PathUnescape: `%XX` with two hex digits (either case) becomes the
      byte XX, every other byte (including `+`) stands for itself, and a `%`
      not followed by two hex digits fails. */
  function PathUnescape(s: GoString): (r: Result<GoString, EscapeError>)
    ensures r.Ok? ==> |r.value| <= |s|
    ensures r.Err? ==> 1 <= |r.error.fragment| <= 3 && r.error.fragment[0] == '%'
    decreases |s|
  {
    if |s| == 0 then Ok([])
    else if s[0] == '%' then
      if |s| < 3 || !IsHex(s[1]) || !IsHex(s[2]) then
        Err(EscapeError(if |s| < 3 then s else s[..3]))
      else
        match PathUnescape(s[3..])
        case Err(e) => Err(e)
        case Ok(rest) => Ok([(16 * Unhex(s[1]) + Unhex(s[2])) as char] + rest)
    else
      match PathUnescape(s[1..])
      case Err(e) => Err(e)
      case Ok(rest) => Ok([s[0]] + rest)
  }

  /** Every `%` in `s` starts a complete `%XX` triplet. */
  ghost predicate WellEscaped(s: GoString) {
    forall i :: 0 <= i < |s| && s[i] == '%' ==> i + 2 < |s| && IsHex(s[i + 1]) && IsHex(s[i + 2])
  }

  /** PathUnescape fails exactly on the inputs holding a malformed triplet. */
  lemma {:induction false} UnescapeSucceedsIffWellEscaped(s: GoString)
    ensures PathUnescape(s).Ok? <==> WellEscaped(s)
    decreases |s|
  {
    if |s| == 0 {
    } else if s[0] == '%' {
      if |s| >= 3 && IsHex(s[1]) && IsHex(s[2]) {
        UnescapeSucceedsIffWellEscaped(s[3..]);
        assert WellEscaped(s) <==> WellEscaped(s[3..]) by {
          if WellEscaped(s[3..]) {
            forall i | 0 <= i < |s| && s[i] == '%'
              ensures i + 2 < |s| && IsHex(s[i + 1]) && IsHex(s[i + 2])
            {
              if i >= 3 { assert s[3..][i - 3] == s[i]; }
            }
          }
          if WellEscaped(s) {
            forall i | 0 <= i < |s[3..]| && s[3..][i] == '%'
              ensures i + 2 < |s[3..]| && IsHex(s[3..][i + 1]) && IsHex(s[3..][i + 2])
            {
              assert s[i + 3] == '%';
            }
          }
        }
      }
    } else {
      UnescapeSucceedsIffWellEscaped(s[1..]);
      assert WellEscaped(s) <==> WellEscaped(s[1..]) by {
        if WellEscaped(s[1..]) {
          forall i | 0 <= i < |s| && s[i] == '%'
            ensures i + 2 < |s| && IsHex(s[i + 1]) && IsHex(s[i + 2])
          {
            assert s[1..][i - 1] == s[i];
          }
        }
        if WellEscaped(s) {
          forall i | 0 <= i < |s[1..]| && s[1..][i] == '%'
            ensures i + 2 < |s[1..]| && IsHex(s[1..][i + 1]) && IsHex(s[1..][i + 2])
          {
            assert s[i + 1] == '%';
          }
        }
      }
    }
  }

  /** Decoding one escaped byte in front of `rest` yields that byte in front
      of the decoding of `rest`. */
  lemma UnescapeEscapedByte(c: Byte, rest: GoString)
    ensures PathUnescape(EscapeByte(c) + rest)
         == match PathUnescape(rest)
            case Err(e) => Err(e)
            case Ok(r) => Ok([c] + r)
  {
    var s := EscapeByte(c) + rest;
    if ShouldEscape(c) {
      assert s[3..] == rest;
      assert s[0] == '%' && s[1] == EscapeByte(c)[1] && s[2] == EscapeByte(c)[2];
    } else {
      assert s[1..] == rest;
    }
  }

  /** Link round trip: PathUnescape undoes PathEscape. */
  lemma {:induction false} UnescapeEscape(s: GoString)
    ensures PathUnescape(PathEscape(s)) == Ok(s)
    decreases |s|
  {
    if |s| > 0 {
      UnescapeEscape(s[1..]);
      UnescapeEscapedByte(s[0], PathEscape(s[1..]));
      assert [s[0]] + s[1..] == s;
    }
  }

  /** PathEscape leaves `s` unchanged exactly when no byte of `s` needs escaping. */
  lemma {:induction false} EscapeIsIdentityIff(s: GoString)
    ensures PathEscape(s) == s <==> forall i :: 0 <= i < |s| ==> !ShouldEscape(s[i])
    decreases |s|
  {
    if |s| > 0 {
      EscapeIsIdentityIff(s[1..]);
      if ShouldEscape(s[0]) {
        assert |PathEscape(s)| > |s| by {
          assert |PathEscape(s[1..])| >= |s[1..]|;
        }
      } else {
        assert PathEscape(s) == [s[0]] + PathEscape(s[1..]);
        assert s == [s[0]] + s[1..];
        if PathEscape(s) == s {
          assert PathEscape(s[1..]) == PathEscape(s)[1..] == s[1..];
        }
        if forall i :: 0 <= i < |s| ==> !ShouldEscape(s[i]) {
          assert forall i :: 0 <= i < |s[1..]| ==> !ShouldEscape(s[1..][i]) by {
            forall i | 0 <= i < |s[1..]| ensures !ShouldEscape(s[1..][i]) {
              assert s[1..][i] == s[i + 1];
            }
          }
        }
      }
    }
  }

  /** An escaped text without `%` escaped nothing, so it is its own input. */
  lemma {:induction false} EscapeWithoutPercent(s: GoString)
    requires '%' !in PathEscape(s)
    ensures PathEscape(s) == s
    decreases |s|
  {
    if |s| > 0 {
      var e := PathEscape(s);
      assert e == EscapeByte(s[0]) + PathEscape(s[1..]);
      assert e[0] == EscapeByte(s[0])[0];
      assert forall k :: 0 <= k < |PathEscape(s[1..])| ==> PathEscape(s[1..])[k] == e[|EscapeByte(s[0])| + k];
      EscapeWithoutPercent(s[1..]);
      assert s == [s[0]] + s[1..];
    }
  }

  /** A text without `%` decodes to itself. */
  lemma {:induction false} UnescapeWithoutPercent(s: GoString)
    requires '%' !in s
    ensures PathUnescape(s) == Ok(s)
    decreases |s|
  {
    if |s| > 0 {
      assert '%' !in s[1..] by {
        forall k | 0 <= k < |s[1..]| ensures s[1..][k] != '%' { assert s[1..][k] == s[k + 1]; }
      }
      UnescapeWithoutPercent(s[1..]);
      assert [s[0]] + s[1..] == s;
    }
  }
}
