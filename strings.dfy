/**
 * The JavaScript string built-ins the journal relies on: `String.prototype.trim`,
 * `split` on a single-character separator, `Array.prototype.join`, character
 * reversal and `repeat`. A JavaScript string is modelled as a sequence of
 * Dafny `char`s, which are Unicode scalar values.
 */
module Strings {

  /** The characters `trim` removes: ECMAScript WhiteSpace and LineTerminator. */
  predicate IsWhitespace(c: char) {
    c == '\t' || c == '\n' || c == '\U{000B}' || c == '\U{000C}' || c == '\r' || c == ' '
    || c == '\U{00A0}' || c == '\U{1680}' || ('\U{2000}' <= c <= '\U{200A}')
    || c == '\U{2028}' || c == '\U{2029}' || c == '\U{202F}' || c == '\U{205F}'
    || c == '\U{3000}' || c == '\U{FEFF}'
  }

  predicate AllWhitespace(s: string) {
    forall k | 0 <= k < |s| :: IsWhitespace(s[k])
  }

  /** The number of leading whitespace characters of `s`. */
  function LeadingWhitespace(s: string): (n: nat)
    ensures n <= |s| && AllWhitespace(s[..n])
    ensures n < |s| ==> !IsWhitespace(s[n])
    decreases |s|
  {
    if s != [] && IsWhitespace(s[0]) then
      var n := LeadingWhitespace(s[1..]);
      assert s[..n + 1] == [s[0]] + s[1..][..n];
      n + 1
    else 0
  }

  /** Where the trailing whitespace of `s` begins. */
  function TrailingWhitespace(s: string): (n: nat)
    ensures n <= |s| && AllWhitespace(s[n..])
    ensures n > 0 ==> !IsWhitespace(s[n - 1])
    decreases |s|
  {
    if s != [] && IsWhitespace(s[|s| - 1]) then
      var n := TrailingWhitespace(s[..|s| - 1]);
      assert s[n..] == s[..|s| - 1][n..] + [s[|s| - 1]];
      n
    else |s|
  }

  /**
   * `s.trim()`: the piece of `s` between its leading and its trailing
   * whitespace. It is empty exactly when `s` is all whitespace, otherwise it
   * neither starts nor ends with whitespace, and all that is cut off on
   * either side is whitespace.
   */
  function Trim(s: string): (r: string)
    ensures r == [] <==> AllWhitespace(s)
    ensures r != [] ==> !IsWhitespace(r[0]) && !IsWhitespace(r[|r| - 1])
    ensures var a := LeadingWhitespace(s);
      a + |r| <= |s| && r == s[a..a + |r|] && AllWhitespace(s[..a]) && AllWhitespace(s[a + |r|..])
  {
    var a := LeadingWhitespace(s);
    var b := a + TrailingWhitespace(s[a..]);
    TrimBounds(s, a, b);
    s[a..b]
  }

  lemma TrimBounds(s: string, a: nat, b: nat)
    requires a == LeadingWhitespace(s) && b == a + TrailingWhitespace(s[a..])
    ensures b <= |s| && AllWhitespace(s[b..])
    ensures a == b <==> AllWhitespace(s)
    ensures a < b ==> !IsWhitespace(s[a]) && !IsWhitespace(s[b - 1])
  {
    TrailingIsWhitespace(s, a, b);
    BlankWhenEmpty(s, a, b);
    EmptyWhenBlank(s, a, b);
    TrimEnds(s, a, b);
  }

  lemma TrailingIsWhitespace(s: string, a: nat, b: nat)
    requires a == LeadingWhitespace(s) && b == a + TrailingWhitespace(s[a..])
    ensures b <= |s| && AllWhitespace(s[b..])
  {
  }

  lemma BlankWhenEmpty(s: string, a: nat, b: nat)
    requires a == LeadingWhitespace(s) && b == a + TrailingWhitespace(s[a..])
    ensures a == b ==> AllWhitespace(s)
  {
    if a == |s| {
      assert s[..a] == s;
    } else if b == a {
      assert false;
    }
  }

  lemma EmptyWhenBlank(s: string, a: nat, b: nat)
    requires a == LeadingWhitespace(s) && b == a + TrailingWhitespace(s[a..])
    ensures AllWhitespace(s) ==> a == b
  {
  }

  lemma TrimEnds(s: string, a: nat, b: nat)
    requires a == LeadingWhitespace(s) && b == a + TrailingWhitespace(s[a..])
    ensures a < b ==> !IsWhitespace(s[a]) && !IsWhitespace(s[b - 1])
  {
  }

  lemma TrimIdempotent(s: string)
    ensures Trim(Trim(s)) == Trim(s)
  {
  }

  /** A leading space does not make a text blank or non-blank. */
  lemma BlankAfterSpace(s: string)
    ensures AllWhitespace(" " + s) <==> AllWhitespace(s)
  {
    assert forall k | 0 <= k < |s| :: (" " + s)[k + 1] == s[k];
  }

  /** `s.split(sep)` for a one-character separator; never empty. */
  function SplitOn(s: string, sep: char): (r: seq<string>)
    ensures |r| >= 1
    decreases |s|
  {
    if s == [] then [[]]
    else
      var rest := SplitOn(s[1..], sep);
      if s[0] == sep then [[]] + rest else [[s[0]] + rest[0]] + rest[1..]
  }

  /** `ts.join(sep)`; the empty list joins to the empty string. */
  function Join(ts: seq<string>, sep: string): string
    decreases |ts|
  {
    if |ts| == 0 then []
    else if |ts| == 1 then ts[0]
    else ts[0] + sep + Join(ts[1..], sep)
  }

  /** `s.split('').reverse().join('')`, one `char` at a time. */
  function Reverse(s: string): (r: string)
    ensures |r| == |s|
    ensures forall i | 0 <= i < |s| :: r[i] == s[|s| - 1 - i]
  {
    if s == [] then [] else Reverse(s[1..]) + [s[0]]
  }

  /** `c.repeat(n)` for a one-character string `c`. */
  function Repeat(c: char, n: nat): (r: string)
    ensures |r| == n
    ensures forall i | 0 <= i < n :: r[i] == c
  {
    seq(n, _ => c)
  }

  predicate NoSeparator(ts: seq<string>, sep: char) {
    forall i | 0 <= i < |ts| :: sep !in ts[i]
  }

  /** No piece of a split contains the separator. */
  lemma {:induction false} SplitHasNoSeparator(s: string, sep: char)
    ensures NoSeparator(SplitOn(s, sep), sep)
    decreases |s|
  {
    if s != [] {
      SplitHasNoSeparator(s[1..], sep);
      var rest := SplitOn(s[1..], sep);
      if s[0] != sep {
        var r := SplitOn(s, sep);
        forall i | 0 <= i < |r| ensures sep !in r[i] {
          if i > 0 { assert r[i] == rest[i]; }
        }
      }
    }
  }

  /** Joining the pieces of a split with the separator gives back the string. */
  lemma {:induction false} JoinSplit(s: string, sep: char)
    ensures Join(SplitOn(s, sep), [sep]) == s
    decreases |s|
  {
    if s != [] {
      JoinSplit(s[1..], sep);
      var rest := SplitOn(s[1..], sep);
      if s[0] == sep {
        assert SplitOn(s, sep) == [[]] + rest;
        assert ([[]] + rest)[1..] == rest;
      } else {
        var r := SplitOn(s, sep);
        assert r[1..] == rest[1..];
        if |rest| == 1 {
          assert Join(r, [sep]) == [s[0]] + rest[0];
        } else {
          assert Join(rest, [sep]) == rest[0] + [sep] + Join(rest[1..], [sep]);
          assert Join(r, [sep]) == [s[0]] + rest[0] + [sep] + Join(rest[1..], [sep]);
        }
        assert s == [s[0]] + s[1..];
      }
    }
  }

  /** Splitting a piece free of the separator, followed by the separator. */
  lemma {:induction false} SplitAfterPiece(a: string, sep: char, b: string)
    requires sep !in a
    ensures SplitOn(a + [sep] + b, sep) == [a] + SplitOn(b, sep)
    decreases |a|
  {
    if a == [] {
      assert a + [sep] + b == [sep] + b;
      assert ([sep] + b)[1..] == b;
    } else {
      SplitAfterPiece(a[1..], sep, b);
      assert (a + [sep] + b)[1..] == a[1..] + [sep] + b;
      assert [a[0]] + a[1..] == a;
    }
  }

  lemma {:induction false} SplitPiece(a: string, sep: char)
    requires sep !in a
    ensures SplitOn(a, sep) == [a]
    decreases |a|
  {
    if a != [] {
      SplitPiece(a[1..], sep);
      assert [a[0]] + a[1..] == a;
    }
  }

  /**
   * Splitting a join of separator-free pieces gives back the pieces: joining
   * keeps the number of pieces and each piece.
   */
  lemma {:induction false} SplitJoin(ts: seq<string>, sep: char)
    requires |ts| >= 1 && NoSeparator(ts, sep)
    ensures SplitOn(Join(ts, [sep]), sep) == ts
    decreases |ts|
  {
    if |ts| == 1 {
      SplitPiece(ts[0], sep);
    } else {
      SplitJoin(ts[1..], sep);
      SplitAfterPiece(ts[0], sep, Join(ts[1..], [sep]));
      assert [ts[0]] + ts[1..] == ts;
    }
  }
}
