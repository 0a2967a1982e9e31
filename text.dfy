/**
 * The JavaScript string operations the extension relies on, over strings as
 * sequences of code points: `trim`, `split` on one character, `join`,
 * `includes` and `toLowerCase` (ASCII letters only).
 */
module Text {

  /** The code points `String.prototype.trim` removes: ECMAScript WhiteSpace and LineTerminator. */
  const Whitespace: set<char> := {
    '\t', '\n', '\U{000B}', '\U{000C}', '\r', ' ', '\U{00A0}', '\U{1680}',
    '\U{2000}', '\U{2001}', '\U{2002}', '\U{2003}', '\U{2004}', '\U{2005}',
    '\U{2006}', '\U{2007}', '\U{2008}', '\U{2009}', '\U{200A}',
    '\U{2028}', '\U{2029}', '\U{202F}', '\U{205F}', '\U{3000}', '\U{FEFF}'
  }

  predicate IsWhitespace(c: char)
  {
    c in Whitespace
  }

  predicate AllWhitespace(s: string)
  {
    forall i :: 0 <= i < |s| ==> IsWhitespace(s[i])
  }

  /** How many whitespace code points `s` starts with. */
  function LeadingSpace(s: string): (k: nat)
    ensures k <= |s|
    ensures AllWhitespace(s[..k])
    ensures k < |s| ==> !IsWhitespace(s[k])
  {
    if |s| > 0 && IsWhitespace(s[0]) then
      var k := 1 + LeadingSpace(s[1..]);
      assert s[..k] == [s[0]] + s[1..][..k - 1];
      k
    else
      0
  }

  /** The length of `s` without its trailing whitespace. */
  function ContentEnd(s: string): (k: nat)
    ensures k <= |s|
    ensures AllWhitespace(s[k..])
    ensures k > 0 ==> !IsWhitespace(s[k - 1])
  {
    if |s| > 0 && IsWhitespace(s[|s| - 1]) then
      var k := ContentEnd(s[..|s| - 1]);
      assert s[k..] == s[..|s| - 1][k..] + [s[|s| - 1]];
      k
    else
      |s|
  }

  /**
   * JavaScript `s.trim()`: whitespace dropped at both ends. The result is
   * empty exactly when `s` is all whitespace, and otherwise begins and ends
   * with a code point that is not whitespace.
   */
  function Trim(s: string): (r: string)
    ensures |r| <= |s|
    ensures r == [] <==> AllWhitespace(s)
    ensures r != [] ==> !IsWhitespace(r[0]) && !IsWhitespace(r[|r| - 1])
  {
    var i := LeadingSpace(s);
    var t := s[i..];
    var k := ContentEnd(t);
    assert k == 0 ==> s == s[..i] + t[k..];
    assert 0 < k ==> t[0] == t[..k][0];
    t[..k]
  }

  /** `Trim` keeps the contiguous piece of `s` between its leading and its trailing whitespace. */
  lemma TrimIsInfix(s: string)
    ensures var i := LeadingSpace(s); var r := Trim(s);
      && i + |r| <= |s|
      && AllWhitespace(s[..i]) && r == s[i..i + |r|] && AllWhitespace(s[i + |r|..])
  {
    var i := LeadingSpace(s);
    var t := s[i..];
    var k := ContentEnd(t);
    assert Trim(s) == t[..k];
    assert t[..k] == s[i..i + k];
    assert s[i + k..] == t[k..];
  }

  /** The index of the first `c` in `s`, or `|s|` when `s` has none. */
  function IndexOf(s: string, c: char): (k: nat)
    ensures k <= |s|
    ensures c !in s[..k]
    ensures k < |s| ==> s[k] == c
  {
    if |s| == 0 then 0
    else if s[0] == c then 0
    else
      var k := 1 + IndexOf(s[1..], c);
      assert s[..k] == [s[0]] + s[1..][..k - 1];
      k
  }

  /** The first index is the only place before which `c` does not occur. */
  lemma IndexOfUnique(s: string, c: char, k: nat)
    requires k < |s| && s[k] == c && c !in s[..k]
    ensures IndexOf(s, c) == k
  {
  }

  /**
   * JavaScript `s.split(sep)` for a one-character separator: the maximal
   * pieces between separators, at least one (the empty string splits to `[""]`).
   */
  function Split(s: string, sep: char): (parts: seq<string>)
    ensures |parts| >= 1
    decreases |s|
  {
    var k := IndexOf(s, sep);
    if k == |s| then [s] else [s[..k]] + Split(s[k + 1..], sep)
  }

  /** No piece of a split holds the separator. */
  lemma {:induction false} SplitPiecesLackSeparator(s: string, sep: char)
    ensures forall p :: p in Split(s, sep) ==> sep !in p
    decreases |s|
  {
    var k := IndexOf(s, sep);
    if k == |s| {
      assert s[..k] == s;
      assert Split(s, sep) == [s];
    } else {
      var rest := Split(s[k + 1..], sep);
      SplitPiecesLackSeparator(s[k + 1..], sep);
      assert Split(s, sep) == [s[..k]] + rest;
      forall p | p in Split(s, sep) ensures sep !in p {
        if p != s[..k] {
          assert p in rest;
        }
      }
    }
  }

  /** JavaScript `parts.join(sep)`. */
  function Join(parts: seq<string>, sep: char): string
  {
    if |parts| == 0 then ""
    else if |parts| == 1 then parts[0]
    else parts[0] + [sep] + Join(parts[1..], sep)
  }

  /** Joining the pieces of a split with the same separator gives back the string. */
  lemma {:induction false} JoinSplit(s: string, sep: char)
    ensures Join(Split(s, sep), sep) == s
    decreases |s|
  {
    var k := IndexOf(s, sep);
    if k < |s| {
      var rest := s[k + 1..];
      var tail := Split(rest, sep);
      JoinSplit(rest, sep);
      assert Split(s, sep) == [s[..k]] + tail;
      assert ([s[..k]] + tail)[1..] == tail;
      assert s == s[..k] + [sep] + rest;
    }
  }

  /** Splitting a join of separator-free pieces gives back the pieces. */
  lemma {:induction false} SplitJoin(parts: seq<string>, sep: char)
    requires |parts| >= 1
    requires forall p :: p in parts ==> sep !in p
    ensures Split(Join(parts, sep), sep) == parts
    decreases |parts|
  {
    var s := Join(parts, sep);
    if |parts| == 1 {
      assert parts[0] in parts;
      assert IndexOf(s, sep) == |s|;
    } else {
      var first, rest := parts[0], Join(parts[1..], sep);
      assert first in parts;
      assert s == first + [sep] + rest;
      assert s[..|first|] == first;
      IndexOfUnique(s, sep, |first|);
      assert s[|first| + 1..] == rest;
      SplitJoin(parts[1..], sep);
      assert parts == [first] + parts[1..];
    }
  }

  /** The first piece of a split runs up to the first separator; the rest re-join to everything after it. */
  lemma SplitAtFirst(s: string, sep: char)
    ensures var k := IndexOf(s, sep);
      && Split(s, sep)[0] == s[..k]
      && (|Split(s, sep)| > 1 <==> k < |s|)
      && (k < |s| ==> Join(Split(s, sep)[1..], sep) == s[k + 1..])
  {
    var k := IndexOf(s, sep);
    if k < |s| {
      var parts := Split(s, sep);
      assert parts[1..] == Split(s[k + 1..], sep);
      JoinSplit(s[k + 1..], sep);
    } else {
      assert s[..k] == s;
    }
  }

  /** ASCII case folding: `A`..`Z` to `a`..`z`, every other code point unchanged. */
  function LowerChar(c: char): char
  {
    if 'A' <= c <= 'Z' then (c as int + 32) as char else c
  }

  /** `s.toLowerCase()` restricted to ASCII letters. */
  function Lower(s: string): (r: string)
    ensures |r| == |s|
  {
    if s == [] then [] else [LowerChar(s[0])] + Lower(s[1..])
  }

  /** Lower-casing folds each code point on its own. */
  lemma {:induction false} LowerAt(s: string)
    ensures forall i :: 0 <= i < |s| ==> Lower(s)[i] == LowerChar(s[i])
    decreases |s|
  {
    if s != [] {
      LowerAt(s[1..]);
    }
  }

  predicate OccursAt(s: string, p: string, i: int)
  {
    0 <= i <= |s| - |p| && s[i..i + |p|] == p
  }

  /** JavaScript `s.includes(p)`: `p` occurs somewhere in `s` as a contiguous piece. */
  predicate Contains(s: string, p: string)
  {
    exists i :: 0 <= i <= |s| - |p| && OccursAt(s, p, i)
  }

  /** Every string contains itself. */
  lemma ContainsSelf(s: string)
    ensures Contains(s, s)
  {
    assert OccursAt(s, s, 0);
  }
}
