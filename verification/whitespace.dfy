/**
 * The regular expression class `\s` of JavaScript and the replacement
 * `s.replace(/\s+/g, '_')` that the upload server applies to a file's base name.
 */
module Whitespace {

  /**
   * `\s`: the WhiteSpace and LineTerminator code points of ECMAScript
   * (tab, line feed, vertical tab, form feed, carriage return, space,
   * no-break space, the Unicode space separators, line and paragraph
   * separators, and the byte order mark).
   */
  predicate IsWhitespace(c: char): (b: bool)
    ensures b <==> c in {
      '\t', '\n', '\U{000B}', '\U{000C}', '\r', ' ', '\U{00A0}', '\U{1680}',
      '\U{2000}', '\U{2001}', '\U{2002}', '\U{2003}', '\U{2004}', '\U{2005}',
      '\U{2006}', '\U{2007}', '\U{2008}', '\U{2009}', '\U{200A}',
      '\U{2028}', '\U{2029}', '\U{202F}', '\U{205F}', '\U{3000}', '\U{FEFF}'}
  {
    || c == '\t' || c == '\n' || c == '\U{000B}' || c == '\U{000C}' || c == '\r' || c == ' '
    || c == '\U{00A0}' || c == '\U{1680}' || ('\U{2000}' <= c <= '\U{200A}')
    || c == '\U{2028}' || c == '\U{2029}' || c == '\U{202F}' || c == '\U{205F}'
    || c == '\U{3000}' || c == '\U{FEFF}'
  }

  predicate NoWhitespace(s: string)
  {
    forall i :: 0 <= i < |s| ==> !IsWhitespace(s[i])
  }

  predicate AllWhitespace(s: string)
  {
    forall i :: 0 <= i < |s| ==> IsWhitespace(s[i])
  }

  /** `s` without its leading run of whitespace. */
  function SkipWhitespace(s: string): (rest: string)
    ensures |rest| <= |s|
    ensures rest == [] || !IsWhitespace(rest[0])
  {
    if s != [] && IsWhitespace(s[0]) then SkipWhitespace(s[1..]) else s
  }

  /** What SkipWhitespace skips is whitespace, and what it keeps is the rest of `s`. */
  lemma {:induction false} SkipSplits(s: string)
    ensures var rest := SkipWhitespace(s);
      rest == s[|s| - |rest|..] && AllWhitespace(s[..|s| - |rest|])
  {
    if s != [] && IsWhitespace(s[0]) {
      SkipSplits(s[1..]);
      var rest := SkipWhitespace(s);
      assert s[..|s| - |rest|] == [s[0]] + s[1..][..|s| - 1 - |rest|];
    }
  }

  /**
   * `s.replace(/\s+/g, '_')`: scanning left to right, each match of `\s+`
   * is a longest run of whitespace, and it is replaced by one '_'.
   */
  function ReplaceWhitespaceRuns(s: string): (r: string)
    ensures NoWhitespace(r)
    ensures |r| <= |s|
    ensures r == [] <==> s == []
    decreases |s|
  {
    if s == [] then []
    else if IsWhitespace(s[0]) then "_" + ReplaceWhitespaceRuns(SkipWhitespace(s[1..]))
    else [s[0]] + ReplaceWhitespaceRuns(s[1..])
  }

  /** Text without whitespace is left as it is. */
  lemma {:induction false} ReplaceKeepsText(t: string)
    requires NoWhitespace(t)
    ensures ReplaceWhitespaceRuns(t) == t
  {
    if t != [] {
      ReplaceKeepsText(t[1..]);
    }
  }

  /** A non-empty run of whitespace becomes exactly one '_'. */
  lemma ReplaceRun(w: string)
    requires w != [] && AllWhitespace(w)
    ensures ReplaceWhitespaceRuns(w) == "_"
  {
    SkipSplits(w[1..]);
  }

  /** Skipping a run that ends inside `x` does not look at what follows `x`. */
  lemma {:induction false} SkipAppend(x: string, y: string)
    requires SkipWhitespace(x) != []
    ensures SkipWhitespace(x + y) == SkipWhitespace(x) + y
  {
    if IsWhitespace(x[0]) {
      assert (x + y)[1..] == x[1..] + y;
      SkipAppend(x[1..], y);
    }
  }

  /** Skipping a whole run of whitespace stops at the first non-blank after it. */
  lemma {:induction false} SkipPastRun(x: string, y: string)
    requires AllWhitespace(x)
    requires y == [] || !IsWhitespace(y[0])
    ensures SkipWhitespace(x + y) == y
  {
    if x != [] {
      assert (x + y)[1..] == x[1..] + y;
      SkipPastRun(x[1..], y);
    }
  }

  /**
   * Replacement works piece by piece as long as the cut does not split a run
   * of whitespace. With ReplaceKeepsText and ReplaceRun this determines the
   * replacement completely: every longest run of whitespace becomes one '_'
   * and every other character stays, in order.
   */
  lemma {:induction false} ReplaceAppend(a: string, b: string)
    requires a == [] || b == [] || !IsWhitespace(a[|a| - 1]) || !IsWhitespace(b[0])
    ensures ReplaceWhitespaceRuns(a + b) == ReplaceWhitespaceRuns(a) + ReplaceWhitespaceRuns(b)
    decreases |a|
  {
    if a == [] {
      assert a + b == b;
    } else if !IsWhitespace(a[0]) {
      TailOfAppend(a, b);
      ReplaceAppend(a[1..], b);
    } else {
      var rest := SkipWhitespace(a[1..]);
      if rest != [] {
        SkipSplits(a[1..]);
        assert rest[|rest| - 1] == a[|a| - 1];
        ReplaceAppend(rest, b);
        RunThenRest(a, b);
      } else {
        WhitespaceRunJoin(a, b);
      }
    }
  }

  /** The case of ReplaceAppend where `a` is a run of whitespace followed by more text. */
  lemma {:induction false} RunThenRest(a: string, b: string)
    requires a != [] && IsWhitespace(a[0])
    requires SkipWhitespace(a[1..]) != []
    requires var rest := SkipWhitespace(a[1..]);
      ReplaceWhitespaceRuns(rest + b) == ReplaceWhitespaceRuns(rest) + ReplaceWhitespaceRuns(b)
    ensures ReplaceWhitespaceRuns(a + b) == ReplaceWhitespaceRuns(a) + ReplaceWhitespaceRuns(b)
  {
    var rest := SkipWhitespace(a[1..]);
    TailOfAppend(a, b);
    SkipAppend(a[1..], b);
    ReplaceAtRun(a + b);
    ReplaceAtRun(a);
    assert SkipWhitespace((a + b)[1..]) == rest + b;
    var x, y := ReplaceWhitespaceRuns(rest), ReplaceWhitespaceRuns(b);
    assert "_" + (x + y) == ("_" + x) + y;
  }

  /** One step of the replacement at a whitespace character. */
  lemma ReplaceAtRun(s: string)
    requires s != [] && IsWhitespace(s[0])
    ensures ReplaceWhitespaceRuns(s) == "_" + ReplaceWhitespaceRuns(SkipWhitespace(s[1..]))
  {
  }

  /** The case of ReplaceAppend where `a` is a single run of whitespace. */
  lemma {:induction false} WhitespaceRunJoin(a: string, b: string)
    requires a != [] && IsWhitespace(a[0]) && SkipWhitespace(a[1..]) == []
    requires b == [] || !IsWhitespace(a[|a| - 1]) || !IsWhitespace(b[0])
    ensures ReplaceWhitespaceRuns(a + b) == ReplaceWhitespaceRuns(a) + ReplaceWhitespaceRuns(b)
  {
    SkipSplits(a[1..]);
    assert a[1..] == a[1..][..|a[1..]|];
    assert AllWhitespace(a[1..]);
    assert IsWhitespace(a[|a| - 1]) by {
      if |a| > 1 { assert a[|a| - 1] == a[1..][|a| - 2]; }
    }
    TailOfAppend(a, b);
    SkipPastRun(a[1..], b);
    assert ReplaceWhitespaceRuns(a + b) == "_" + ReplaceWhitespaceRuns(b);
    assert ReplaceWhitespaceRuns(a) == "_";
  }

  /** The replacement brings in no character other than '_'. */
  lemma {:induction false} ReplaceAddsOnlyUnderscores(s: string, c: char)
    requires c != '_' && c !in s
    ensures c !in ReplaceWhitespaceRuns(s)
    decreases |s|
  {
    if s != [] {
      if IsWhitespace(s[0]) {
        var rest := SkipWhitespace(s[1..]);
        SkipSplits(s[1..]);
        assert c !in rest;
        ReplaceAddsOnlyUnderscores(rest, c);
      } else {
        ReplaceAddsOnlyUnderscores(s[1..], c);
      }
    }
  }

  lemma TailOfAppend(a: string, b: string)
    requires a != []
    ensures (a + b)[0] == a[0] && (a + b)[1..] == a[1..] + b
  {
  }

  /** Replacing twice changes nothing more. */
  lemma ReplaceIdempotent(s: string)
    ensures ReplaceWhitespaceRuns(ReplaceWhitespaceRuns(s)) == ReplaceWhitespaceRuns(s)
  {
    ReplaceKeepsText(ReplaceWhitespaceRuns(s));
  }
}
