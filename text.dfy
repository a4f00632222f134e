/**
 * The two Python string built-ins the validator relies on, as pure functions:
 * `str.split()` with no argument (cut a line into whitespace-separated
 * tokens) and `str.splitlines()` (cut the manifest text into lines).
 */
module PyText {

  /** Python's `str.isspace` for one character: the Unicode whitespace set. */
  predicate IsSpace(c: char)
  {
    var n := c as int;
    (0x09 <= n <= 0x0D) || (0x1C <= n <= 0x20) || n == 0x85 || n == 0xA0 || n == 0x1680
    || (0x2000 <= n <= 0x200A) || n == 0x2028 || n == 0x2029 || n == 0x202F
    || n == 0x205F || n == 0x3000
  }

  /**
   * The line boundaries of `str.splitlines`: `\n`, `\r`, `\x0b`, `\x0c`,
   * `\x1c`, `\x1d`, `\x1e`, `\x85`, U+2028 and U+2029 (a `\r\n` pair is
   * one boundary of two characters).
   */
  predicate IsLineBreak(c: char)
  {
    var n := c as int;
    (0x0A <= n <= 0x0D) || (0x1C <= n <= 0x1E) || n == 0x85 || n == 0x2028 || n == 0x2029
  }

  /** Every line boundary is also whitespace for `str.split`. */
  lemma LineBreakIsSpace(c: char)
    ensures IsLineBreak(c) ==> IsSpace(c)
  {
  }

  predicate AllSpace(s: string)
  {
    forall i :: 0 <= i < |s| ==> IsSpace(s[i])
  }

  predicate NoSpace(s: string)
  {
    forall i :: 0 <= i < |s| ==> !IsSpace(s[i])
  }

  /** What `str.split()` can return as one element: a non-empty run of non-whitespace. */
  predicate IsToken(t: string)
  {
    |t| > 0 && NoSpace(t)
  }

  predicate NoLineBreak(s: string)
  {
    forall i :: 0 <= i < |s| ==> !IsLineBreak(s[i])
  }

  // SpaceRun, WordRun and LineRun (and PyPath.UntilSep) share one shape,
  // the longest prefix whose characters pass a test. Each is written for its
  // own test, so that its contract names that character class directly and
  // no function value enters the quantifiers the proofs rely on.

  /** Length of the longest prefix of `s` made of whitespace. */
  function SpaceRun(s: string): (n: nat)
    ensures n <= |s|
    ensures AllSpace(s[..n])
    ensures n < |s| ==> !IsSpace(s[n])
  {
    if s == [] || !IsSpace(s[0]) then 0
    else
      var m := SpaceRun(s[1..]);
      assert s[..1 + m] == [s[0]] + s[1..][..m];
      1 + m
  }

  /** Length of the longest prefix of `s` free of whitespace. */
  function WordRun(s: string): (n: nat)
    ensures n <= |s|
    ensures NoSpace(s[..n])
    ensures n < |s| ==> IsSpace(s[n])
  {
    if s == [] || IsSpace(s[0]) then 0
    else
      var m := WordRun(s[1..]);
      assert s[..1 + m] == [s[0]] + s[1..][..m];
      1 + m
  }

  /**
   * Python's `s.split()`: the maximal runs of non-whitespace, in order.
   * Leading, trailing and repeated whitespace produce no empty token.
   */
  function Split(s: string): (r: seq<string>)
    ensures forall i :: 0 <= i < |r| ==> IsToken(r[i])
    decreases |s|
  {
    var t := s[SpaceRun(s)..];
    if t == [] then []
    else
      var n := WordRun(t);
      [t[..n]] + Split(t[n..])
  }

  /** The characters of `s` that are not whitespace, in order. */
  function NonSpace(s: string): string
  {
    if s == [] then [] else (if IsSpace(s[0]) then [] else [s[0]]) + NonSpace(s[1..])
  }

  function Concat(ts: seq<string>): string
  {
    if ts == [] then [] else ts[0] + Concat(ts[1..])
  }

  /** Python's `sep.join(parts)` for a one-character separator. */
  function JoinWith(parts: seq<string>, sep: char): string
  {
    if parts == [] then []
    else if |parts| == 1 then parts[0]
    else parts[0] + [sep] + JoinWith(parts[1..], sep)
  }

  lemma {:induction false} NonSpaceAppend(a: string, b: string)
    ensures NonSpace(a + b) == NonSpace(a) + NonSpace(b)
  {
    if a == [] {
      assert a + b == b;
    } else {
      assert (a + b)[0] == a[0];
      assert (a + b)[1..] == a[1..] + b;
      NonSpaceAppend(a[1..], b);
    }
  }

  lemma {:induction false} NonSpaceOfSpaces(s: string)
    requires AllSpace(s)
    ensures NonSpace(s) == []
  {
    if s != [] {
      NonSpaceOfSpaces(s[1..]);
    }
  }

  lemma {:induction false} NonSpaceOfWord(s: string)
    requires NoSpace(s)
    ensures NonSpace(s) == s
  {
    if s != [] {
      NonSpaceOfWord(s[1..]);
    }
  }

  lemma ConcatCons(t: string, ts: seq<string>)
    ensures Concat([t] + ts) == t + Concat(ts)
  {
    assert ([t] + ts)[0] == t && ([t] + ts)[1..] == ts;
  }

  lemma NonSpaceSplitAt(s: string, k: nat)
    requires k <= |s|
    ensures NonSpace(s) == NonSpace(s[..k]) + NonSpace(s[k..])
  {
    assert s == s[..k] + s[k..];
    NonSpaceAppend(s[..k], s[k..]);
  }

  /** `split()` loses no character and invents none: the tokens are the non-whitespace of `s`. */
  lemma {:induction false} SplitKeepsNonSpace(s: string)
    ensures Concat(Split(s)) == NonSpace(s)
    decreases |s|
  {
    var k := SpaceRun(s);
    var t := s[k..];
    NonSpaceSplitAt(s, k);
    NonSpaceOfSpaces(s[..k]);
    if t != [] {
      var n := WordRun(t);
      NonSpaceSplitAt(t, n);
      NonSpaceOfWord(t[..n]);
      ConcatCons(t[..n], Split(t[n..]));
      SplitKeepsNonSpace(t[n..]);
    }
  }

  /** A line gives no token at all exactly when it is empty or all whitespace. */
  lemma SplitEmptyIff(s: string)
    ensures Split(s) == [] <==> AllSpace(s)
  {
    var k := SpaceRun(s);
    if AllSpace(s) {
      assert k == |s|;
    }
    if Split(s) == [] {
      assert s[k..] == [];
      assert s == s[..k];
    }
  }

  lemma {:induction false} SpaceRunAppend(w: string, s: string)
    requires AllSpace(w)
    ensures SpaceRun(w + s) == |w| + SpaceRun(s)
  {
    if w == [] {
      assert w + s == s;
    } else {
      assert (w + s)[0] == w[0];
      assert (w + s)[1..] == w[1..] + s;
      SpaceRunAppend(w[1..], s);
    }
  }

  lemma {:induction false} WordRunAppend(t: string, s: string)
    requires NoSpace(t)
    requires s == [] || IsSpace(s[0])
    ensures WordRun(t + s) == |t|
  {
    if t != [] {
      assert (t + s)[1..] == t[1..] + s;
      WordRunAppend(t[1..], s);
    } else {
      assert t + s == s;
    }
  }

  /** Leading whitespace does not change the tokens. */
  lemma SplitSkipsSpace(w: string, s: string)
    requires AllSpace(w)
    ensures Split(w + s) == Split(s)
  {
    SpaceRunAppend(w, s);
    var x := w + s;
    var k := SpaceRun(s);
    assert x[SpaceRun(x)..] == s[k..];
  }

  /** A token followed by whitespace (or the end) is the first token. */
  lemma SplitToken(t: string, s: string)
    requires IsToken(t)
    requires s == [] || IsSpace(s[0])
    ensures Split(t + s) == [t] + Split(s)
  {
    var x := t + s;
    assert SpaceRun(x) == 0 by {
      assert x[0] == t[0];
    }
    WordRunAppend(t, s);
    assert x[..|t|] == t;
    assert x[|t|..] == s;
  }

  lemma SplitNothing()
    ensures Split([]) == []
  {
    assert SpaceRun([]) == 0;
  }

  /** A single token splits to itself. */
  lemma SplitWord(t: string)
    requires IsToken(t)
    ensures Split(t) == [t]
  {
    SplitToken(t, []);
    assert t + [] == t;
    SplitNothing();
  }

  /** A token, one space and more text: the token comes first, then the tokens of the text. */
  lemma SplitSpaced(t: string, rest: string)
    requires IsToken(t)
    ensures Split(t + " " + rest) == [t] + Split(rest)
  {
    assert t + " " + rest == t + (" " + rest);
    SplitToken(t, " " + rest);
    assert AllSpace(" ");
    SplitSkipsSpace(" ", rest);
  }

  /** `split()` undoes `" ".join` for tokens: the round trip of a manifest line. */
  lemma {:induction false} SplitJoinSpaced(ts: seq<string>)
    requires forall i :: 0 <= i < |ts| ==> IsToken(ts[i])
    ensures Split(JoinWith(ts, ' ')) == ts
  {
    if ts == [] {
      SplitNothing();
    } else if |ts| == 1 {
      SplitWord(ts[0]);
    } else {
      var head, tail := ts[0], ts[1..];
      assert JoinWith(ts, ' ') == head + " " + JoinWith(tail, ' ');
      SplitSpaced(head, JoinWith(tail, ' '));
      assert forall i :: 0 <= i < |tail| ==> IsToken(tail[i]) by {
        forall i | 0 <= i < |tail| ensures IsToken(tail[i]) {
          assert tail[i] == ts[i + 1];
        }
      }
      SplitJoinSpaced(tail);
      assert ts == [head] + tail;
    }
  }

  /**
   * The tokens `ts` laid out with the whitespace `ws` around them:
   * `ws[0] + ts[0] + ws[1] + ... + ts[n-1] + ws[n]`.
   */
  function Layout(ts: seq<string>, ws: seq<string>): string
    requires |ws| == |ts| + 1
  {
    if ts == [] then ws[0] else ws[0] + ts[0] + Layout(ts[1..], ws[1..])
  }

  /** What `Layout` needs to split back: tokens, whitespace, and some whitespace between each two tokens. */
  predicate IsLayout(ts: seq<string>, ws: seq<string>)
  {
    && |ws| == |ts| + 1
    && (forall i :: 0 <= i < |ts| ==> IsToken(ts[i]))
    && (forall i :: 0 <= i < |ws| ==> AllSpace(ws[i]))
    && (forall i :: 0 < i < |ts| ==> ws[i] != [])
  }

  lemma IsLayoutTail(ts: seq<string>, ws: seq<string>)
    requires IsLayout(ts, ws) && ts != []
    ensures IsLayout(ts[1..], ws[1..])
  {
    var ts', ws' := ts[1..], ws[1..];
    forall i | 0 <= i < |ts'| ensures IsToken(ts'[i]) { assert ts'[i] == ts[i + 1]; }
    forall i | 0 <= i < |ws'| ensures AllSpace(ws'[i]) { assert ws'[i] == ws[i + 1]; }
    forall i | 0 < i < |ts'| ensures ws'[i] != [] { assert ws'[i] == ws[i + 1]; }
  }

  /** A layout that holds tokens after its leading whitespace starts with whitespace, or is empty. */
  lemma LayoutHead(ts: seq<string>, ws: seq<string>)
    requires IsLayout(ts, ws)
    requires ts == [] || ws[0] != []
    ensures Layout(ts, ws) == [] || IsSpace(Layout(ts, ws)[0])
  {
    assert AllSpace(ws[0]);
    if ts != [] {
      var rest := ts[0] + Layout(ts[1..], ws[1..]);
      assert Layout(ts, ws) == ws[0] + rest;
      assert (ws[0] + rest)[0] == ws[0][0];
    }
  }

  /** `split()` of tokens with any whitespace around and between them gives back exactly the tokens. */
  lemma {:induction false} SplitLayout(ts: seq<string>, ws: seq<string>)
    requires IsLayout(ts, ws)
    ensures Split(Layout(ts, ws)) == ts
  {
    if ts == [] {
      SplitEmptyIff(ws[0]);
    } else {
      var head, tail, gaps := ts[0], ts[1..], ws[1..];
      var rest := Layout(tail, gaps);
      IsLayoutTail(ts, ws);
      LayoutHead(tail, gaps);
      assert Layout(ts, ws) == ws[0] + (head + rest);
      SplitSkipsSpace(ws[0], head + rest);
      SplitToken(head, rest);
      SplitLayout(tail, gaps);
      assert ts == [head] + tail;
    }
  }

  /** Length of the longest prefix of `s` free of line boundaries. */
  function LineRun(s: string): (n: nat)
    ensures n <= |s|
    ensures NoLineBreak(s[..n])
    ensures n < |s| ==> IsLineBreak(s[n])
  {
    if s == [] || IsLineBreak(s[0]) then 0
    else
      var m := LineRun(s[1..]);
      assert s[..1 + m] == [s[0]] + s[1..][..m];
      1 + m
  }

  lemma {:induction false} LineRunAppend(l: string, s: string)
    requires NoLineBreak(l)
    requires s == [] || IsLineBreak(s[0])
    ensures LineRun(l + s) == |l|
  {
    if l != [] {
      assert (l + s)[1..] == l[1..] + s;
      LineRunAppend(l[1..], s);
    } else {
      assert l + s == s;
    }
  }

  /**
   * Python's `s.splitlines()`: the text between line boundaries, where
   * `\r\n` counts as one boundary. A final boundary does not start an
   * extra empty line, and the empty text has no lines.
   */
  function SplitLines(s: string): (r: seq<string>)
    ensures forall i :: 0 <= i < |r| ==> NoLineBreak(r[i])
    decreases |s|
  {
    if s == [] then []
    else
      var n := LineRun(s);
      if n == |s| then [s]
      else
        var k := if s[n] == '\r' && n + 1 < |s| && s[n + 1] == '\n' then 2 else 1;
        [s[..n]] + SplitLines(s[n + k..])
  }

  /** The line terminators a manifest may use. */
  predicate IsTerminator(eol: string)
  {
    eol == "\n" || eol == "\r\n" || eol == "\r"
  }

  /** Every line followed by the terminator `eol`. */
  function Terminated(lines: seq<string>, eol: string): string
  {
    if lines == [] then [] else lines[0] + eol + Terminated(lines[1..], eol)
  }

  /** A line free of boundaries, then `\n`, is the first line. */
  lemma SplitLinesStepLF(l: string, rest: string)
    requires NoLineBreak(l)
    ensures SplitLines(l + "\n" + rest) == [l] + SplitLines(rest)
  {
    var s := l + "\n" + rest;
    assert s == l + ("\n" + rest);
    LineRunAppend(l, "\n" + rest);
    assert s[..|l|] == l && s[|l|] == '\n';
    assert s[|l| + 1..] == rest;
  }

  /** A line free of boundaries, then `\r` not followed by `\n`, is the first line. */
  lemma SplitLinesStepCR(l: string, rest: string)
    requires NoLineBreak(l)
    requires rest == [] || rest[0] != '\n'
    ensures SplitLines(l + "\r" + rest) == [l] + SplitLines(rest)
  {
    var s := l + "\r" + rest;
    assert s == l + ("\r" + rest);
    LineRunAppend(l, "\r" + rest);
    assert s[..|l|] == l && s[|l|] == '\r';
    assert |l| + 1 < |s| ==> s[|l| + 1] == rest[0];
    assert s[|l| + 1..] == rest;
  }

  /** A line free of boundaries, then `\r\n`, is the first line. */
  lemma SplitLinesStepCRLF(l: string, rest: string)
    requires NoLineBreak(l)
    ensures SplitLines(l + "\r\n" + rest) == [l] + SplitLines(rest)
  {
    var s := l + "\r\n" + rest;
    assert s == l + ("\r\n" + rest);
    LineRunAppend(l, "\r\n" + rest);
    assert s[..|l|] == l && s[|l|] == '\r' && s[|l| + 1] == '\n';
    assert s[|l| + 2..] == rest;
  }

  /** A line free of boundaries, then any boundary other than `\r`, is the first line. */
  lemma SplitLinesStep(l: string, c: char, rest: string)
    requires NoLineBreak(l) && IsLineBreak(c) && c != '\r'
    ensures SplitLines(l + [c] + rest) == [l] + SplitLines(rest)
  {
    var s := l + [c] + rest;
    assert s == l + ([c] + rest);
    LineRunAppend(l, [c] + rest);
    assert s[..|l|] == l && s[|l|] == c;
    assert s[|l| + 1..] == rest;
  }

  /** A non-empty text free of boundaries, with no terminator, is one line. */
  lemma SplitLinesLast(l: string)
    requires NoLineBreak(l) && l != []
    ensures SplitLines(l) == [l]
  {
    LineRunAppend(l, []);
    assert l + [] == l;
  }

  /** The first character of `a + b` when `b` is not empty. */
  lemma HeadOfAppend(a: string, b: string)
    requires b != []
    ensures a + b != [] && (a + b)[0] == if a == [] then b[0] else a[0]
  {
    if a == [] {
      assert a + b == b;
    }
  }

  /** `\r`-terminated text never starts with `\n`, so its first `\r` cannot pair up with what comes before. */
  lemma TerminatedHead(lines: seq<string>)
    requires |lines| >= 1 && NoLineBreak(lines[0])
    ensures Terminated(lines, "\r") != [] && Terminated(lines, "\r")[0] != '\n'
  {
    var first := lines[0];
    var after := "\r" + Terminated(lines[1..], "\r");
    assert Terminated(lines, "\r") == first + after;
    HeadOfAppend(first, after);
    assert IsLineBreak('\n');
    if first != [] {
      assert !IsLineBreak(first[0]);
    }
  }

  lemma {:induction false} SplitLinesTerminatedLF(lines: seq<string>)
    requires forall i :: 0 <= i < |lines| ==> NoLineBreak(lines[i])
    ensures SplitLines(Terminated(lines, "\n")) == lines
  {
    if lines != [] {
      SplitLinesStepLF(lines[0], Terminated(lines[1..], "\n"));
      SplitLinesTerminatedLF(lines[1..]);
    }
  }

  lemma {:induction false} SplitLinesTerminatedCR(lines: seq<string>)
    requires forall i :: 0 <= i < |lines| ==> NoLineBreak(lines[i])
    ensures SplitLines(Terminated(lines, "\r")) == lines
  {
    if lines != [] {
      var rest := Terminated(lines[1..], "\r");
      if rest != [] {
        TerminatedHead(lines[1..]);
      }
      SplitLinesStepCR(lines[0], rest);
      SplitLinesTerminatedCR(lines[1..]);
    }
  }

  lemma {:induction false} SplitLinesTerminatedCRLF(lines: seq<string>)
    requires forall i :: 0 <= i < |lines| ==> NoLineBreak(lines[i])
    ensures SplitLines(Terminated(lines, "\r\n")) == lines
  {
    if lines != [] {
      SplitLinesStepCRLF(lines[0], Terminated(lines[1..], "\r\n"));
      SplitLinesTerminatedCRLF(lines[1..]);
    }
  }

  /**
   * `splitlines()` undoes terminating every line with `\n`, `\r\n` or
   * `\r`: no trailing empty line appears after the last terminator.
   */
  lemma SplitLinesTerminated(lines: seq<string>, eol: string)
    requires forall i :: 0 <= i < |lines| ==> NoLineBreak(lines[i])
    requires IsTerminator(eol)
    ensures SplitLines(Terminated(lines, eol)) == lines
  {
    if eol == "\n" {
      SplitLinesTerminatedLF(lines);
    } else if eol == "\r" {
      SplitLinesTerminatedCR(lines);
    } else {
      SplitLinesTerminatedCRLF(lines);
    }
  }

  lemma TerminatedAppend(lines: seq<string>, eol: string, rest: string)
    requires lines != []
    ensures Terminated(lines, eol) + rest == lines[0] + eol + (Terminated(lines[1..], eol) + rest)
  {
    var x, t := lines[0] + eol, Terminated(lines[1..], eol);
    assert Terminated(lines, eol) == x + t;
    assert x + t + rest == x + (t + rest);
  }

  /** A line free of boundaries, then a terminator, is the first line. */
  lemma SplitLinesStepEol(l: string, eol: string, rest: string)
    requires NoLineBreak(l) && IsTerminator(eol)
    requires eol == "\r" && rest != [] ==> rest[0] != '\n'
    ensures SplitLines(l + eol + rest) == [l] + SplitLines(rest)
  {
    if eol == "\n" {
      SplitLinesStepLF(l, rest);
    } else if eol == "\r" {
      SplitLinesStepCR(l, rest);
    } else {
      SplitLinesStepCRLF(l, rest);
    }
  }

  /** `\r`-terminated lines followed by text that does not start with `\n` do not start with `\n` either. */
  lemma TerminatedThenHead(lines: seq<string>, rest: string)
    requires forall i :: 0 <= i < |lines| ==> NoLineBreak(lines[i])
    requires rest != [] ==> rest[0] != '\n'
    ensures var t := Terminated(lines, "\r") + rest; t != [] ==> t[0] != '\n'
  {
    var t := Terminated(lines, "\r");
    if t != [] {
      TerminatedHead(lines);
      assert (t + rest)[0] == t[0];
    } else {
      assert t + rest == rest;
    }
  }

  lemma LinesCons(lines: seq<string>, after: seq<string>)
    requires lines != []
    ensures lines + after == [lines[0]] + (lines[1..] + after)
  {
    assert lines == [lines[0]] + lines[1..];
  }

  /**
   * Terminated lines followed by any further text split into those lines
   * and then the lines of that text, provided a `\r` terminator is not
   * followed by a `\n` of the text.
   */
  lemma {:induction false} SplitLinesTerminatedThen(lines: seq<string>, eol: string, rest: string)
    requires forall i :: 0 <= i < |lines| ==> NoLineBreak(lines[i])
    requires IsTerminator(eol)
    requires eol == "\r" && rest != [] ==> rest[0] != '\n'
    ensures SplitLines(Terminated(lines, eol) + rest) == lines + SplitLines(rest)
  {
    if lines == [] {
      assert Terminated(lines, eol) + rest == rest;
    } else {
      var more := lines[1..];
      var tail := Terminated(more, eol) + rest;
      TerminatedAppend(lines, eol, rest);
      forall i | 0 <= i < |more|
        ensures NoLineBreak(more[i])
      {
        assert more[i] == lines[i + 1];
      }
      SplitLinesTerminatedThen(more, eol, rest);
      if eol == "\r" {
        TerminatedThenHead(more, rest);
      }
      SplitLinesStepEol(lines[0], eol, tail);
      LinesCons(lines, SplitLines(rest));
    }
  }

  /** Terminated lines and then one more line with no terminator split back into all of them. */
  lemma SplitLinesUnterminated(lines: seq<string>, eol: string)
    requires forall i :: 0 <= i < |lines| ==> NoLineBreak(lines[i])
    requires IsTerminator(eol) && lines != [] && lines[|lines| - 1] != []
    ensures SplitLines(Terminated(lines[..|lines| - 1], eol) + lines[|lines| - 1]) == lines
  {
    var n := |lines|;
    var init, last := lines[..n - 1], lines[n - 1];
    forall i | 0 <= i < |init|
      ensures NoLineBreak(init[i])
    {
      assert init[i] == lines[i];
    }
    assert NoLineBreak(last);
    assert IsLineBreak('\n') && !IsLineBreak(last[0]);
    SplitLinesTerminatedThen(init, eol, last);
    SplitLinesLast(last);
    assert init + [last] == lines;
  }
}
