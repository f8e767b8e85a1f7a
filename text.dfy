/**
 * The java.lang.String operations the customer and event classes rely on:
 * `trim`, `isBlank`, `split` on a one-character pattern, and the letter test
 * the e-mail check applies to the top-level domain. A string is a sequence
 * of characters.
 */
module Text {

  // ---------------------------------------------------------------------------
  // Character classes
  // ---------------------------------------------------------------------------

  /** What `String.trim` strips: every character up to and including the space. */
  predicate IsTrimmable(c: char)
  {
    c <= ' '
  }

  /**
   * Character.isWhitespace: the space separators other than the no-break
   * spaces (U+00A0, U+2007, U+202F), the line and paragraph separators, and
   * the controls U+0009..U+000D and U+001C..U+001F.
   */
  predicate IsWhitespace(c: char)
  {
    var n := c as int;
    || 0x09 <= n <= 0x0D
    || 0x1C <= n <= 0x20
    || n == 0x1680
    || 0x2000 <= n <= 0x2006
    || 0x2008 <= n <= 0x200A
    || n == 0x2028 || n == 0x2029 || n == 0x205F || n == 0x3000
  }

  /** Character.isLetter on the Latin-1 range (U+0000..U+00FF). */
  predicate IsLetter(c: char)
  {
    var n := c as int;
    || 'A' <= c <= 'Z'
    || 'a' <= c <= 'z'
    || n == 0xAA || n == 0xB5 || n == 0xBA
    || 0xC0 <= n <= 0xD6
    || 0xD8 <= n <= 0xF6
    || 0xF8 <= n <= 0xFF
  }

  /** `s.chars().allMatch(Character::isLetter)`; true of the empty string. */
  predicate AllLetters(s: string)
  {
    forall i :: 0 <= i < |s| ==> IsLetter(s[i])
  }

  /** `isBlank`: empty, or white space only. */
  predicate IsBlank(s: string)
  {
    forall i :: 0 <= i < |s| ==> IsWhitespace(s[i])
  }

  // ---------------------------------------------------------------------------
  // trim
  // ---------------------------------------------------------------------------

  /** Drops the leading characters up to the space. */
  function TrimStart(s: string): (r: string)
  {
    if |s| > 0 && IsTrimmable(s[0]) then TrimStart(s[1..]) else s
  }

  /** TrimStart keeps a suffix, drops only trimmable characters, and stops at one it keeps. */
  lemma {:induction false} TrimStartShape(s: string)
    ensures var r := TrimStart(s);
      && |r| <= |s| && r == s[|s| - |r|..]
      && (forall k :: 0 <= k < |s| - |r| ==> IsTrimmable(s[k]))
      && (r == [] || !IsTrimmable(r[0]))
    decreases |s|
  {
    if |s| > 0 && IsTrimmable(s[0]) {
      TrimStartShape(s[1..]);
      var r := TrimStart(s);
      assert r == TrimStart(s[1..]);
      forall k | 0 <= k < |s| - |r|
        ensures IsTrimmable(s[k])
      {
        if k > 0 {
          assert s[k] == s[1..][k - 1];
        }
      }
    }
  }

  /** Drops the trailing characters up to the space. */
  function TrimEnd(s: string): (r: string)
  {
    if |s| > 0 && IsTrimmable(s[|s| - 1]) then TrimEnd(s[..|s| - 1]) else s
  }

  /** TrimEnd keeps a prefix, drops only trimmable characters, and stops at one it keeps. */
  lemma {:induction false} TrimEndShape(s: string)
    ensures var r := TrimEnd(s);
      && |r| <= |s| && r == s[..|r|]
      && (forall k :: |r| <= k < |s| ==> IsTrimmable(s[k]))
      && (r == [] || !IsTrimmable(r[|r| - 1]))
    decreases |s|
  {
    if |s| > 0 && IsTrimmable(s[|s| - 1]) {
      TrimEndShape(s[..|s| - 1]);
      var r := TrimEnd(s);
      assert r == TrimEnd(s[..|s| - 1]);
      forall k | |r| <= k < |s|
        ensures IsTrimmable(s[k])
      {
        if k < |s| - 1 {
          assert s[k] == s[..|s| - 1][k];
        }
      }
    }
  }

  /** `trim`: drops every leading and trailing character up to the space. */
  function Trim(s: string): (r: string)
  {
    TrimEnd(TrimStart(s))
  }

  /**
   * Trim keeps exactly the stretch s[i..j] between a head and a tail made
   * of characters up to the space.
   */
  lemma TrimBounds(s: string) returns (i: nat, j: nat)
    ensures i <= j <= |s| && Trim(s) == s[i..j]
    ensures forall k :: 0 <= k < i ==> IsTrimmable(s[k])
    ensures forall k :: j <= k < |s| ==> IsTrimmable(s[k])
  {
    var t := TrimStart(s);
    var r := TrimEnd(t);
    TrimStartShape(s);
    TrimEndShape(t);
    i := |s| - |t|;
    j := i + |r|;
    assert t == s[i..];
    assert r == t[..|r|];
    assert r == s[i..j];
    forall k | j <= k < |s|
      ensures IsTrimmable(s[k])
    {
      assert s[k] == t[k - i];
    }
  }

  /** Neither end of the string is a character trim would strip. */
  predicate IsTrimmed(s: string)
  {
    s == [] || (!IsTrimmable(s[0]) && !IsTrimmable(s[|s| - 1]))
  }

  /** What trim keeps starts and ends with a character above the space. */
  lemma TrimEnds(s: string)
    ensures IsTrimmed(Trim(s))
  {
    var t := TrimStart(s);
    var r := TrimEnd(t);
    TrimStartShape(s);
    TrimEndShape(t);
    if r != [] {
      assert r == t[..|r|];
      assert r[0] == t[0];
    }
  }

  /** Trim leaves a string alone exactly when it is already trimmed. */
  lemma TrimFixesTrimmed(s: string)
    ensures Trim(s) == s <==> IsTrimmed(s)
  {
    if IsTrimmed(s) {
      assert TrimStart(s) == s;
    } else {
      TrimEnds(s);
    }
  }

  /** Trimming twice is trimming once. */
  lemma TrimIdempotent(s: string)
    ensures Trim(Trim(s)) == Trim(s)
  {
    TrimEnds(s);
    TrimFixesTrimmed(Trim(s));
  }

  /** A blank string stays blank when trimmed. */
  lemma TrimKeepsBlank(s: string)
    requires IsBlank(s)
    ensures IsBlank(Trim(s))
  {
    var i, j := TrimBounds(s);
    assert forall k :: 0 <= k < j - i ==> Trim(s)[k] == s[i + k];
  }

  // ---------------------------------------------------------------------------
  // split on a one-character pattern
  // ---------------------------------------------------------------------------

  /** How often `sep` occurs in s. */
  function Count(s: string, sep: char): (n: nat)
    ensures n <= |s|
  {
    if |s| == 0 then 0
    else Count(s[..|s| - 1], sep) + (if s[|s| - 1] == sep then 1 else 0)
  }

  lemma {:induction false} CountZero(s: string, sep: char)
    ensures Count(s, sep) == 0 <==> sep !in s
  {
    if |s| > 0 {
      CountZero(s[..|s| - 1], sep);
      assert s == s[..|s| - 1] + [s[|s| - 1]];
    }
  }

  /** The pieces between the separators, empty pieces included: Count + 1 of them. */
  function SplitAll(s: string, sep: char): (parts: seq<string>)
    ensures |parts| >= 1
  {
    if |s| == 0 then [""]
    else
      var init := SplitAll(s[..|s| - 1], sep);
      var last := s[|s| - 1];
      if last == sep then init + [""]
      else init[..|init| - 1] + [init[|init| - 1] + [last]]
  }

  /** The pieces glued back together with the separator between them. */
  function Join(parts: seq<string>, sep: char): (s: string)
    requires |parts| >= 1
  {
    if |parts| == 1 then parts[0]
    else Join(parts[..|parts| - 1], sep) + [sep] + parts[|parts| - 1]
  }

  lemma JoinExtendLast(parts: seq<string>, sep: char, tail: string)
    requires |parts| >= 1
    ensures Join(parts[..|parts| - 1] + [parts[|parts| - 1] + tail], sep) == Join(parts, sep) + tail
  {
    var n := |parts|;
    var q := parts[..n - 1] + [parts[n - 1] + tail];
    if n > 1 {
      assert q[..n - 1] == parts[..n - 1];
    }
  }

  /**
   * SplitAll takes s apart: gluing its pieces back gives s, no piece holds
   * the separator, and there is one piece more than there are separators.
   */
  lemma {:induction false} SplitAllJoin(s: string, sep: char)
    ensures Join(SplitAll(s, sep), sep) == s
    ensures forall k :: 0 <= k < |SplitAll(s, sep)| ==> sep !in SplitAll(s, sep)[k]
    ensures |SplitAll(s, sep)| == Count(s, sep) + 1
  {
    if |s| > 0 {
      var pre := s[..|s| - 1];
      var init := SplitAll(pre, sep);
      SplitAllJoin(pre, sep);
      assert s == pre + [s[|s| - 1]];
      if s[|s| - 1] == sep {
        assert (init + [""])[..|init|] == init;
      } else {
        JoinExtendLast(init, sep, [s[|s| - 1]]);
      }
    }
  }

  /** The suffix of s after its last separator (all of s when there is none). */
  function AfterLast(s: string, sep: char): (r: string)
  {
    if |s| == 0 then []
    else if s[|s| - 1] == sep then []
    else AfterLast(s[..|s| - 1], sep) + [s[|s| - 1]]
  }

  /** AfterLast is a suffix free of the separator, preceded by a separator unless it is all of s. */
  lemma {:induction false} AfterLastShape(s: string, sep: char)
    ensures var r := AfterLast(s, sep);
      && |r| <= |s| && r == s[|s| - |r|..] && sep !in r
      && (|r| < |s| ==> s[|s| - |r| - 1] == sep)
    decreases |s|
  {
    if |s| > 0 && s[|s| - 1] != sep {
      var init := s[..|s| - 1];
      AfterLastShape(init, sep);
      var r0 := AfterLast(init, sep);
      assert AfterLast(s, sep) == r0 + [s[|s| - 1]];
      assert init[|init| - |r0|..] + [s[|s| - 1]] == s[|s| - |r0| - 1..];
    }
  }

  lemma {:induction false} LastPieceIsAfterLast(s: string, sep: char)
    ensures SplitAll(s, sep)[|SplitAll(s, sep)| - 1] == AfterLast(s, sep)
  {
    if |s| > 0 {
      LastPieceIsAfterLast(s[..|s| - 1], sep);
    }
  }

  /** Occurrences in a concatenation with the separator between the parts. */
  lemma {:induction false} CountAppend(a: string, b: string, sep: char)
    ensures Count(a + [sep] + b, sep) == Count(a, sep) + 1 + Count(b, sep)
    ensures forall c :: c != sep ==> Count(a + [c] + b, sep) == Count(a, sep) + Count(b, sep)
    decreases |b|
  {
    if |b| > 0 {
      var b' := b[..|b| - 1];
      CountAppend(a, b', sep);
      assert (a + [sep] + b)[..|a + [sep] + b| - 1] == a + [sep] + b';
      forall c | c != sep
        ensures Count(a + [c] + b, sep) == Count(a, sep) + Count(b, sep)
      {
        assert (a + [c] + b)[..|a + [c] + b| - 1] == a + [c] + b';
      }
    } else {
      assert (a + [sep] + b)[..|a|] == a;
      forall c | c != sep
        ensures Count(a + [c] + b, sep) == Count(a, sep) + Count(b, sep)
      {
        assert (a + [c] + b)[..|a|] == a;
      }
    }
  }

  /** After a separator, a separator-free tail is what AfterLast returns. */
  lemma {:induction false} AfterLastAppend(a: string, b: string, sep: char)
    requires sep !in b
    ensures AfterLast(a + [sep] + b, sep) == b
    decreases |b|
  {
    if |b| > 0 {
      var b' := b[..|b| - 1];
      AfterLastAppend(a, b', sep);
      assert (a + [sep] + b)[..|a + [sep] + b| - 1] == a + [sep] + b';
      assert b == b' + [b[|b| - 1]];
    }
  }

  /** s without its trailing run of separators. */
  function StripTrailing(s: string, sep: char): (r: string)
  {
    if |s| > 0 && s[|s| - 1] == sep then StripTrailing(s[..|s| - 1], sep) else s
  }

  /** StripTrailing keeps a prefix, drops only separators, and ends on a non-separator. */
  lemma {:induction false} StripTrailingShape(s: string, sep: char)
    ensures var r := StripTrailing(s, sep);
      && |r| <= |s| && r == s[..|r|]
      && (forall k :: |r| <= k < |s| ==> s[k] == sep)
      && (r == [] || r[|r| - 1] != sep)
    decreases |s|
  {
    if |s| > 0 && s[|s| - 1] == sep {
      var init := s[..|s| - 1];
      StripTrailingShape(init, sep);
      var r := StripTrailing(s, sep);
      assert r == StripTrailing(init, sep);
      forall k | |r| <= k < |s|
        ensures s[k] == sep
      {
        if k < |s| - 1 {
          assert s[k] == init[k];
        }
      }
    }
  }

  lemma StripNothing(s: string, sep: char)
    requires s != [] && s[|s| - 1] != sep
    ensures StripTrailing(s, sep) == s
  {
  }

  /** Removes the empty strings at the end of a split result. */
  function DropTrailingEmpty(parts: seq<string>): (r: seq<string>)
  {
    if |parts| > 0 && parts[|parts| - 1] == [] then DropTrailingEmpty(parts[..|parts| - 1]) else parts
  }

  /**
   * `s.split(p)` for a pattern matching the single character sep (the
   * source's "@" and "\\."): s itself when sep does not occur, otherwise the
   * pieces with the trailing empty ones removed.
   */
  function Split(s: string, sep: char): (parts: seq<string>)
  {
    if sep !in s then [s] else DropTrailingEmpty(SplitAll(s, sep))
  }

  /** Dropping the trailing empty pieces is splitting without the trailing separators. */
  lemma {:induction false} DropIsStrip(s: string, sep: char)
    ensures DropTrailingEmpty(SplitAll(s, sep)) ==
      if StripTrailing(s, sep) == [] then [] else SplitAll(StripTrailing(s, sep), sep)
  {
    if |s| > 0 {
      var pre := s[..|s| - 1];
      if s[|s| - 1] == sep {
        DropIsStrip(pre, sep);
        var init := SplitAll(pre, sep);
        assert (init + [""])[..|init|] == init;
      }
    }
  }

  /** Split, stated with the trailing separators removed first. */
  lemma SplitShape(s: string, sep: char)
    requires sep in s
    ensures var t := StripTrailing(s, sep);
      Split(s, sep) == if t == [] then [] else SplitAll(t, sep)
  {
    DropIsStrip(s, sep);
  }
}
