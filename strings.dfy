/** The `String.prototype` operations the core applies: `split(sep).pop()`,
    `replace(pattern, replacement)` with a string pattern, `startsWith`
    and `trim`. Strings are sequences of code points. */
module Strings {

  predicate StartsWith(s: string, prefix: string)
  {
    |prefix| <= |s| && s[..|prefix|] == prefix
  }

  /** `s.split([sep])`: the pieces between occurrences of `sep`, at least one. */
  function Split(s: string, sep: char): (parts: seq<string>)
    ensures |parts| >= 1
  {
    if s == [] then [[]]
    else
      var init := Split(s[..|s| - 1], sep);
      var c := s[|s| - 1];
      if c == sep then init + [[]]
      else init[..|init| - 1] + [init[|init| - 1] + [c]]
  }

  /** `s.split([sep]).pop()`: the last piece. `pop` on a non-empty array never
      yields `undefined`, so this is always defined. */
  function LastPiece(s: string, sep: char): string
  {
    var parts := Split(s, sep);
    parts[|parts| - 1]
  }

  /** `seg` is what follows the last `sep` of `s` (all of `s` when there is none). */
  ghost predicate IsTextAfterLast(s: string, sep: char, seg: string)
  {
    && sep !in seg
    && |seg| <= |s|
    && s[|s| - |seg|..] == seg
    && (|seg| < |s| ==> s[|s| - |seg| - 1] == sep)
  }

  lemma TextAfterLastGrows(init: string, c: char, sep: char, seg: string)
    requires IsTextAfterLast(init, sep, seg) && c != sep
    ensures IsTextAfterLast(init + [c], sep, seg + [c])
  {
    var s := init + [c];
    assert s[|s| - |seg| - 1..] == init[|init| - |seg|..] + [c];
    if |seg| < |init| {
      assert s[|s| - |seg| - 2] == init[|init| - |seg| - 1];
    }
  }

  lemma {:induction false} LastPieceIsTextAfterLast(s: string, sep: char)
    ensures IsTextAfterLast(s, sep, LastPiece(s, sep))
  {
    if s != [] {
      var init := s[..|s| - 1];
      var c := s[|s| - 1];
      var parts := Split(init, sep);
      LastPieceIsTextAfterLast(init, sep);
      assert s == init + [c];
      if c != sep {
        assert LastPiece(s, sep) == parts[|parts| - 1] + [c];
        TextAfterLastGrows(init, c, sep, parts[|parts| - 1]);
      } else {
        assert LastPiece(s, sep) == [];
      }
    }
  }

  /** A non-empty text after the last separator ends where `s` ends. */
  lemma TextAfterLastEnd(s: string, sep: char, seg: string)
    requires IsTextAfterLast(s, sep, seg)
    ensures seg != [] ==> s[|s| - 1] != sep
  {
    assert seg != [] ==> seg[|seg| - 1] == s[|s| - 1];
  }

  /** The text after the last separator is all of `s` unless `s` holds one. */
  lemma TextAfterLastWhole(s: string, sep: char, seg: string)
    requires IsTextAfterLast(s, sep, seg)
    ensures |seg| < |s| ==> sep in s
  {
    assert |seg| < |s| ==> s[|s| - |seg| - 1] == sep;
  }

  /** `s.replace(pattern, replacement)` with a string pattern: only the first
      occurrence is replaced. */
  function ReplaceFirst(s: string, pattern: string, replacement: string): (r: string)
    requires pattern != []
    decreases |s|
  {
    if |s| < |pattern| then s
    else if s[..|pattern|] == pattern then replacement + s[|pattern|..]
    else [s[0]] + ReplaceFirst(s[1..], pattern, replacement)
  }

  predicate OccursAt(s: string, pattern: string, i: int)
  {
    0 <= i && i + |pattern| <= |s| && s[i..i + |pattern|] == pattern
  }

  ghost predicate Contains(s: string, pattern: string)
  {
    exists i :: OccursAt(s, pattern, i)
  }

  lemma OccursAtTail(s: string, pattern: string, j: nat)
    requires s != []
    ensures OccursAt(s[1..], pattern, j) <==> OccursAt(s, pattern, j + 1)
  {
    if j + |pattern| <= |s[1..]| {
      assert s[1..][j..j + |pattern|] == s[j + 1..j + 1 + |pattern|];
    }
  }

  lemma {:induction false} ReplaceFirstWithoutOccurrence(s: string, pattern: string, replacement: string)
    requires pattern != []
    requires !Contains(s, pattern)
    ensures ReplaceFirst(s, pattern, replacement) == s
    decreases |s|
  {
    if |s| >= |pattern| {
      assert !OccursAt(s, pattern, 0);
      forall j: nat ensures !OccursAt(s[1..], pattern, j) {
        OccursAtTail(s, pattern, j);
      }
      ReplaceFirstWithoutOccurrence(s[1..], pattern, replacement);
    }
  }

  lemma {:induction false} ReplaceFirstAtFirstOccurrence(s: string, pattern: string, replacement: string, i: nat)
    requires pattern != []
    requires OccursAt(s, pattern, i)
    requires forall j :: 0 <= j < i ==> !OccursAt(s, pattern, j)
    ensures ReplaceFirst(s, pattern, replacement) == s[..i] + replacement + s[i + |pattern|..]
    decreases i
  {
    if i == 0 {
      assert s[..|pattern|] == pattern;
    } else {
      var t := s[1..];
      assert !OccursAt(s, pattern, 0);
      forall j: nat | j < i - 1 ensures !OccursAt(t, pattern, j) {
        OccursAtTail(s, pattern, j);
      }
      OccursAtTail(s, pattern, i - 1);
      assert s[..|pattern|] != pattern;
      ReplaceFirstAtFirstOccurrence(t, pattern, replacement, i - 1);
      calc {
        ReplaceFirst(s, pattern, replacement);
        [s[0]] + ReplaceFirst(t, pattern, replacement);
        [s[0]] + (t[..i - 1] + replacement + t[i - 1 + |pattern|..]);
        { assert s[..i] == [s[0]] + t[..i - 1]; assert t[i - 1 + |pattern|..] == s[i + |pattern|..]; }
        s[..i] + replacement + s[i + |pattern|..];
      }
    }
  }

  /** WhiteSpace and LineTerminator code points of ECMAScript, the set `trim` removes. */
  const JsWhitespace: set<char> := {
    '\t', '\n', '\U{000B}', '\U{000C}', '\r', ' ', '\U{00A0}', '\U{1680}',
    '\U{2000}', '\U{2001}', '\U{2002}', '\U{2003}', '\U{2004}', '\U{2005}',
    '\U{2006}', '\U{2007}', '\U{2008}', '\U{2009}', '\U{200A}',
    '\U{2028}', '\U{2029}', '\U{202F}', '\U{205F}', '\U{3000}', '\U{FEFF}'
  }

  predicate IsJsWhitespace(c: char)
  {
    c in JsWhitespace
  }

  function TrimStart(isSpace: char -> bool, s: string): (r: string)
    ensures |r| <= |s| && r == s[|s| - |r|..]
    ensures r != [] ==> !isSpace(r[0])
  {
    if s != [] && isSpace(s[0]) then TrimStart(isSpace, s[1..]) else s
  }

  function TrimEnd(isSpace: char -> bool, s: string): (r: string)
    ensures |r| <= |s| && r == s[..|r|]
    ensures r != [] ==> !isSpace(r[|r| - 1])
  {
    if s != [] && isSpace(s[|s| - 1]) then TrimEnd(isSpace, s[..|s| - 1]) else s
  }

  /** `s.trim()`. */
  function Trim(s: string): string
  {
    TrimEnd(IsJsWhitespace, TrimStart(IsJsWhitespace, s))
  }

  lemma {:induction false} TrimStartCutsSpace(isSpace: char -> bool, s: string, i: nat)
    requires i < |s| - |TrimStart(isSpace, s)|
    ensures isSpace(s[i])
  {
    assert s != [] && isSpace(s[0]) && TrimStart(isSpace, s) == TrimStart(isSpace, s[1..]);
    if i > 0 {
      TrimStartCutsSpace(isSpace, s[1..], i - 1);
      assert s[1..][i - 1] == s[i];
    }
  }

  lemma {:induction false} TrimEndCutsSpace(isSpace: char -> bool, s: string, i: nat)
    requires |TrimEnd(isSpace, s)| <= i < |s|
    ensures isSpace(s[i])
  {
    assert s != [] && isSpace(s[|s| - 1]) && TrimEnd(isSpace, s) == TrimEnd(isSpace, s[..|s| - 1]);
    if i < |s| - 1 {
      TrimEndCutsSpace(isSpace, s[..|s| - 1], i);
      assert s[..|s| - 1][i] == s[i];
    }
  }
}
