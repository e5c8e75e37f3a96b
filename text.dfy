/**
 * The string operations the backend (Python) and the frontend (JavaScript) rely on:
 * stripping whitespace, splitting on a separator, splitting into lines, joining and
 * dropping blank strings. Stripping is stated once, over a whitespace class `ws`,
 * and instantiated with Python's and JavaScript's classes.
 */
module Text {

  /** Python's `str.isspace()`: the characters `str.strip()` removes. */
  predicate PySpace(c: char) {
    var n := c as int;
    (0x09 <= n <= 0x0D) || (0x1C <= n <= 0x20) || n == 0x85 || n == 0xA0 || n == 0x1680
    || (0x2000 <= n <= 0x200A) || n == 0x2028 || n == 0x2029 || n == 0x202F || n == 0x205F
    || n == 0x3000
  }

  /** The line boundaries of Python's `str.splitlines()` (`\r\n` counts as one boundary). */
  predicate PyLineBreak(c: char) {
    var n := c as int;
    (0x0A <= n <= 0x0D) || (0x1C <= n <= 0x1E) || n == 0x85 || n == 0x2028 || n == 0x2029
  }

  /** JavaScript's WhiteSpace and LineTerminator: the characters `String.prototype.trim()` removes. */
  predicate JsSpace(c: char) {
    var n := c as int;
    (0x09 <= n <= 0x0D) || n == 0x20 || n == 0xA0 || n == 0x1680 || (0x2000 <= n <= 0x200A)
    || n == 0x2028 || n == 0x2029 || n == 0x202F || n == 0x205F || n == 0x3000 || n == 0xFEFF
  }

  /** Every character of `s` is in the class `p`. */
  predicate All(s: string, p: char -> bool) {
    forall k :: 0 <= k < |s| ==> p(s[k])
  }

  /** No character of `s` is in the class `p`. */
  predicate NoneOf(s: string, p: char -> bool) {
    forall k :: 0 <= k < |s| ==> !p(s[k])
  }

  // ---------------------------------------------------------------------------
  // Stripping

  /** The first index at or after `i` whose character is not of class `ws`, or `|s|`. */
  function SkipForward(s: string, ws: char -> bool, i: nat): (j: nat)
    requires i <= |s|
    ensures i <= j <= |s|
    ensures forall k :: i <= k < j ==> ws(s[k])
    ensures j < |s| ==> !ws(s[j])
    decreases |s| - i
  {
    if i < |s| && ws(s[i]) then SkipForward(s, ws, i + 1) else i
  }

  /** Where `s[lo..j]` ends once its trailing characters of class `ws` are cut. */
  function SkipBackward(s: string, ws: char -> bool, lo: nat, j: nat): (e: nat)
    requires lo <= j <= |s|
    ensures lo <= e <= j
    ensures forall k :: e <= k < j ==> ws(s[k])
    ensures lo < e ==> !ws(s[e - 1])
    decreases j
  {
    if lo < j && ws(s[j - 1]) then SkipBackward(s, ws, lo, j - 1) else j
  }

  /**
   * `r` is what is left of `s` once characters of class `ws` are cut from both ends:
   * `r` is the part of `s` starting at index `i`, and all that was cut is whitespace.
   */
  predicate StrippedAt(s: string, r: string, i: nat, ws: char -> bool) {
    && i + |r| <= |s|
    && (forall k :: 0 <= k < |r| ==> r[k] == s[i + k])
    && (forall k :: 0 <= k < i ==> ws(s[k]))
    && (forall k :: i + |r| <= k < |s| ==> ws(s[k]))
  }

  /**
   * `s` without leading and trailing characters of class `ws`: the middle part of `s`
   * left once only whitespace has been cut from both ends, and no further.
   */
  function Strip(s: string, ws: char -> bool): (r: string)
    ensures |r| <= |s|
    ensures exists i :: StrippedAt(s, r, i, ws)
    ensures r == [] <==> All(s, ws)
    ensures r != [] ==> !ws(r[0]) && !ws(r[|r| - 1])
  {
    var a := SkipForward(s, ws, 0);
    var b := SkipBackward(s, ws, a, |s|);
    assert a < |s| ==> a < b;
    assert StrippedAt(s, s[a..b], a, ws);
    s[a..b]
  }

  /**
   * JavaScript's `!s.trim()`: trimming leaves the empty string exactly when every
   * character is whitespace, so the test is stated on the characters.
   */
  predicate JsBlank(s: string) {
    All(s, JsSpace)
  }

  lemma JsBlankIsTrimEmpty(s: string)
    ensures JsBlank(s) <==> Strip(s, JsSpace) == []
  {
  }

  /** Stripping changes nothing of a string that has no whitespace at either end. */
  lemma StripStripped(s: string, ws: char -> bool)
    requires s == [] || (!ws(s[0]) && !ws(s[|s| - 1]))
    ensures Strip(s, ws) == s
  {
    assert SkipForward(s, ws, 0) == 0;
    assert SkipBackward(s, ws, 0, |s|) == |s|;
    assert s[0..|s|] == s;
  }

  /** Whatever is free of a character class stays free of it once stripped. */
  lemma StripKeepsNoneOf(s: string, ws: char -> bool, p: char -> bool)
    requires NoneOf(s, p)
    ensures NoneOf(Strip(s, ws), p)
  {
    var r := Strip(s, ws);
    var i: nat :| StrippedAt(s, r, i, ws);
    forall k | 0 <= k < |r| ensures !p(r[k]) {
      assert r[k] == s[i + k];
    }
  }

  // ---------------------------------------------------------------------------
  // Splitting on a separator string, as Python's `str.split(sep)` does

  /** `sep` occurs in `s` starting at index `j`. */
  predicate SepAt(s: string, sep: string, j: nat) {
    j + |sep| <= |s| && MatchFrom(s, sep, j, 0)
  }

  /** The characters of `s` from index `j + m` on agree with `sep[m..]`. */
  predicate MatchFrom(s: string, sep: string, j: nat, m: nat)
    requires j + |sep| <= |s| && m <= |sep|
    decreases |sep| - m
  {
    m == |sep| || (s[j + m] == sep[m] && MatchFrom(s, sep, j, m + 1))
  }

  lemma {:induction false} MatchFromAll(s: string, sep: string, j: nat, m: nat)
    requires j + |sep| <= |s| && m <= |sep|
    ensures MatchFrom(s, sep, j, m) <==> forall t :: m <= t < |sep| ==> s[j + t] == sep[t]
    decreases |sep| - m
  {
    if m < |sep| {
      MatchFromAll(s, sep, j, m + 1);
    }
  }

  /** `sep` occurs at `j` exactly when it fits there and agrees with `s` character by character. */
  lemma SepAtAll(s: string, sep: string, j: nat)
    ensures SepAt(s, sep, j) <==> j + |sep| <= |s| && forall t :: 0 <= t < |sep| ==> s[j + t] == sep[t]
  {
    if j + |sep| <= |s| {
      MatchFromAll(s, sep, j, 0);
    }
  }

  /** `sep` occurs nowhere in `s`. */
  predicate FreeOf(s: string, sep: string) {
    forall j :: 0 <= j < |s| ==> !SepAt(s, sep, j)
  }

  /** A part of a string free of `sep` is free of `sep`. */
  lemma InfixFreeOf(s: string, r: string, i: nat, sep: string)
    requires i + |r| <= |s| && forall k :: 0 <= k < |r| ==> r[k] == s[i + k]
    requires FreeOf(s, sep)
    ensures FreeOf(r, sep)
  {
    forall j | 0 <= j < |r| ensures !SepAt(r, sep, j) {
      assert !SepAt(s, sep, i + j);
      SepAtAll(s, sep, i + j);
      SepAtAll(r, sep, j);
      if j + |sep| <= |r| {
        var m :| 0 <= m < |sep| && s[i + j + m] != sep[m];
        assert r[j + m] == s[i + (j + m)];
      }
    }
  }

  /** Whatever holds no occurrence of `sep` holds none once stripped. */
  lemma StripKeepsFreeOf(s: string, ws: char -> bool, sep: string)
    requires FreeOf(s, sep)
    ensures FreeOf(Strip(s, ws), sep)
  {
    var r := Strip(s, ws);
    var i: nat :| StrippedAt(s, r, i, ws);
    InfixFreeOf(s, r, i, sep);
  }

  /** The index of the first occurrence of `sep` at or after `i` in `s`, or `|s|` when there is none. */
  function FindFrom(s: string, sep: string, i: nat): (j: nat)
    requires sep != [] && i <= |s|
    ensures i <= j <= |s|
    ensures j < |s| ==> SepAt(s, sep, j)
    decreases |s| - i
  {
    if i == |s| || SepAt(s, sep, i) then i else FindFrom(s, sep, i + 1)
  }

  /** No occurrence of `sep` starts between `i` and what FindFrom returns: it finds the first one. */
  lemma {:induction false} FindFromFirst(s: string, sep: string, i: nat)
    requires sep != [] && i <= |s|
    ensures forall k :: i <= k < FindFrom(s, sep, i) ==> !SepAt(s, sep, k)
    decreases |s| - i
  {
    if i < |s| && !SepAt(s, sep, i) {
      FindFromFirst(s, sep, i + 1);
    }
  }

  /** A first occurrence at or after `i` pins down what FindFrom returns. */
  lemma {:induction false} FindFromIs(s: string, sep: string, i: nat, j: nat)
    requires sep != [] && i <= j <= |s|
    requires j < |s| ==> SepAt(s, sep, j)
    requires forall k :: i <= k < j ==> !SepAt(s, sep, k)
    ensures FindFrom(s, sep, i) == j
    decreases j - i
  {
    if i < j {
      FindFromIs(s, sep, i + 1, j);
    }
  }

  /** With a one-character separator, the first one in `a + sep + b` is the first of `a`, if any. */
  lemma FindFromPrefix(a: string, sep: string, b: string)
    requires |sep| == 1
    ensures FindFrom(a + sep + b, sep, 0) == FindFrom(a, sep, 0)
  {
    var s := a + sep + b;
    var j := FindFrom(a, sep, 0);
    FindFromFirst(a, sep, 0);
    forall k | 0 <= k <= j && k < |a| ensures SepAt(s, sep, k) == SepAt(a, sep, k) {
      SepAtAll(s, sep, k);
      SepAtAll(a, sep, k);
      assert s[k + 0] == a[k + 0];
    }
    SepAtAll(s, sep, |a|);
    assert s[|a| + 0] == sep[0];
    FindFromIs(s, sep, 0, j);
  }

  /** `s[..j]` holds no occurrence of `sep` when none starts in `s` before `j`. */
  lemma PrefixFreeOf(s: string, sep: string, j: nat)
    requires j <= |s|
    requires forall k :: 0 <= k < j ==> !SepAt(s, sep, k)
    ensures FreeOf(s[..j], sep)
  {
    var p := s[..j];
    forall t | 0 <= t < |p| ensures !SepAt(p, sep, t) {
      assert !SepAt(s, sep, t);
      SepAtAll(s, sep, t);
      SepAtAll(p, sep, t);
      if t + |sep| <= |p| {
        var m :| 0 <= m < |sep| && s[t + m] != sep[m];
        assert p[t + m] == s[t + m];
      }
    }
  }

  /** `xs` joined with `sep` between neighbours, as Python's `sep.join(xs)`. */
  function Join(xs: seq<string>, sep: string): string {
    if |xs| == 0 then []
    else if |xs| == 1 then xs[0]
    else xs[0] + sep + Join(xs[1..], sep)
  }

  /**
   * Python's `s.split(sep)`: the pieces between the occurrences of `sep`, found left to
   * right without overlap. There is always at least one piece.
   */
  function SplitOn(s: string, sep: string): (r: seq<string>)
    requires sep != []
    ensures |r| >= 1
    decreases |s|
  {
    var j := FindFrom(s, sep, 0);
    if j == |s| then [s] else [s[..j]] + SplitOn(s[j + |sep|..], sep)
  }

  /** One step of a split: the piece before the first separator, then the split of what follows it. */
  lemma SplitOnStep(s: string, sep: string, j: nat)
    requires sep != [] && j == FindFrom(s, sep, 0)
    ensures j == |s| ==> SplitOn(s, sep) == [s]
    ensures j < |s| ==> SplitOn(s, sep) == [s[..j]] + SplitOn(s[j + |sep|..], sep)
  {
  }

  /** No piece of a split contains the separator. */
  lemma {:induction false} SplitOnPiecesFree(s: string, sep: string)
    requires sep != []
    ensures forall k :: 0 <= k < |SplitOn(s, sep)| ==> FreeOf(SplitOn(s, sep)[k], sep)
    decreases |s|
  {
    var j := FindFrom(s, sep, 0);
    FindFromFirst(s, sep, 0);
    PrefixFreeOf(s, sep, j);
    if j == |s| {
      assert s[..j] == s;
    } else {
      SplitOnPiecesFree(s[j + |sep|..], sep);
    }
  }

  /** Joining a list with a head element: the head, the separator, then the rest joined. */
  lemma JoinCons(head: string, rest: seq<string>, sep: string)
    requires rest != []
    ensures Join([head] + rest, sep) == head + sep + Join(rest, sep)
  {
    var xs := [head] + rest;
    assert xs[0] == head && xs[1..] == rest;
  }

  /** An occurrence of `sep` at `j` cuts `s` into the part before it, `sep` and the part after it. */
  lemma SepSplits(s: string, sep: string, j: nat)
    requires SepAt(s, sep, j)
    ensures s == s[..j] + sep + s[j + |sep|..]
  {
    var n := j + |sep|;
    SepAtAll(s, sep, j);
    forall k | 0 <= k < |s| ensures s[k] == (s[..j] + sep + s[n..])[k] {
      if j <= k < n {
        assert s[j + (k - j)] == sep[k - j];
      }
    }
  }

  /** Joining the pieces of a split with the separator gives back the string. */
  lemma {:induction false} SplitOnJoin(s: string, sep: string)
    requires sep != []
    ensures Join(SplitOn(s, sep), sep) == s
    decreases |s|
  {
    var j := FindFrom(s, sep, 0);
    if j < |s| {
      var n := j + |sep|;
      var head := s[..j];
      var t := s[n..];
      var rest := SplitOn(t, sep);
      calc {
        Join(SplitOn(s, sep), sep);
        { SplitOnStep(s, sep, j); }
        Join([head] + rest, sep);
        { JoinCons(head, rest, sep); }
        head + sep + Join(rest, sep);
        { SplitOnJoin(t, sep); }
        head + sep + t;
        { SepSplits(s, sep, j); }
        s;
      }
    } else {
      SplitOnStep(s, sep, j);
    }
  }

  /** No piece of a split holds a character that `s` does not. */
  lemma {:induction false} SplitOnKeepsNoneOf(s: string, sep: string, p: char -> bool)
    requires sep != [] && NoneOf(s, p)
    ensures forall k :: 0 <= k < |SplitOn(s, sep)| ==> NoneOf(SplitOn(s, sep)[k], p)
    decreases |s|
  {
    var j := FindFrom(s, sep, 0);
    if j < |s| {
      var t := s[j + |sep|..];
      assert NoneOf(t, p) by {
        forall k | 0 <= k < |t| ensures !p(t[k]) {
          assert t[k] == s[j + |sep| + k];
        }
      }
      SplitOnKeepsNoneOf(t, sep, p);
      assert NoneOf(s[..j], p) by {
        forall k | 0 <= k < j ensures !p(s[..j][k]) {
          assert s[..j][k] == s[k];
        }
      }
    }
  }

  /** A string holding no `sep` splits into itself alone. */
  lemma SplitOnFree(s: string, sep: string)
    requires sep != [] && FreeOf(s, sep)
    ensures SplitOn(s, sep) == [s]
  {
    FindFromIs(s, sep, 0, |s|);
  }

  /**
   * For a one-character separator, splitting `a + sep + b` splits `a` and `b`
   * independently: no occurrence can straddle the boundary.
   */
  lemma {:induction false} SplitOnAround(a: string, sep: string, b: string)
    requires |sep| == 1
    ensures SplitOn(a + sep + b, sep) == SplitOn(a, sep) + SplitOn(b, sep)
    decreases |a|
  {
    var s := a + sep + b;
    var j := FindFrom(a, sep, 0);
    FindFromPrefix(a, sep, b);
    var head := s[..j];
    if j < |a| {
      var a' := a[j + 1..];
      var t := s[j + |sep|..];
      calc {
        SplitOn(s, sep);
        { SplitOnStep(s, sep, j); }
        [head] + SplitOn(t, sep);
        { assert t == a' + sep + b; SplitOnAround(a', sep, b); }
        [head] + (SplitOn(a', sep) + SplitOn(b, sep));
        ([head] + SplitOn(a', sep)) + SplitOn(b, sep);
        { assert head == a[..j]; SplitOnStep(a, sep, j); }
        SplitOn(a, sep) + SplitOn(b, sep);
      }
    } else {
      var t := s[|a| + |sep|..];
      calc {
        SplitOn(s, sep);
        { SplitOnStep(s, sep, j); }
        [head] + SplitOn(t, sep);
        { assert head == a; assert t == b; }
        [a] + SplitOn(b, sep);
        { SplitOnStep(a, sep, j); }
        SplitOn(a, sep) + SplitOn(b, sep);
      }
    }
  }

  // ---------------------------------------------------------------------------
  // Splitting into lines, as Python's `str.splitlines()` does

  /** The index of the first line break at or after `i` in `s`, or `|s|` when there is none. */
  function LineEndFrom(s: string, i: nat): (j: nat)
    requires i <= |s|
    ensures i <= j <= |s|
    ensures j < |s| ==> PyLineBreak(s[j])
    ensures forall k :: i <= k < j ==> !PyLineBreak(s[k])
    decreases |s| - i
  {
    if i == |s| || PyLineBreak(s[i]) then i else LineEndFrom(s, i + 1)
  }

  /** The first line break at or after `i` pins down what LineEndFrom returns. */
  lemma {:induction false} LineEndIs(s: string, i: nat, j: nat)
    requires i <= j <= |s|
    requires j < |s| ==> PyLineBreak(s[j])
    requires forall k :: i <= k < j ==> !PyLineBreak(s[k])
    ensures LineEndFrom(s, i) == j
    decreases j - i
  {
    if i < j {
      LineEndIs(s, i + 1, j);
    }
  }

  /** Where the next line starts after the line break at index `i` (`\r\n` is one break). */
  function NextLine(s: string, i: nat): (j: nat)
    requires i < |s|
    ensures i < j <= |s|
  {
    if s[i] == '\r' && i + 1 < |s| && s[i + 1] == '\n' then i + 2 else i + 1
  }

  /**
   * Python's `s.splitlines()`: the lines of `s` without their line breaks. An empty
   * string has no lines and a final line break does not start an empty last line.
   */
  function SplitLines(s: string): (r: seq<string>)
    ensures forall k :: 0 <= k < |r| ==> NoneOf(r[k], PyLineBreak)
    decreases |s|
  {
    if s == [] then []
    else
      var j := LineEndFrom(s, 0);
      assert NoneOf(s[..j], PyLineBreak) by {
        forall k | 0 <= k < j ensures !PyLineBreak(s[..j][k]) {
          assert s[..j][k] == s[k];
        }
      }
      if j == |s| then [s[..j]] else [s[..j]] + SplitLines(s[NextLine(s, j)..])
  }

  /** Every line of `s` is made of characters of `s`: a class `s` avoids, every line avoids. */
  lemma {:induction false} SplitLinesKeepsNoneOf(s: string, p: char -> bool)
    requires NoneOf(s, p)
    ensures forall k :: 0 <= k < |SplitLines(s)| ==> NoneOf(SplitLines(s)[k], p)
    decreases |s|
  {
    if s != [] {
      var j := LineEndFrom(s, 0);
      assert NoneOf(s[..j], p) by {
        forall k | 0 <= k < j ensures !p(s[..j][k]) {
          assert s[..j][k] == s[k];
        }
      }
      if j < |s| {
        var n := NextLine(s, j);
        var t := s[n..];
        assert NoneOf(t, p) by {
          forall k | 0 <= k < |t| ensures !p(t[k]) {
            assert t[k] == s[n + k];
          }
        }
        SplitLinesKeepsNoneOf(t, p);
      }
    }
  }

  /**
   * Lines without line breaks, the last one non-empty, joined with "\n", split back
   * into the same lines.
   */
  lemma {:induction false} SplitLinesJoin(ls: seq<string>)
    requires forall k :: 0 <= k < |ls| ==> NoneOf(ls[k], PyLineBreak)
    requires ls != [] ==> ls[|ls| - 1] != []
    ensures SplitLines(Join(ls, "\n")) == ls
    decreases |ls|
  {
    if |ls| == 1 {
      var l := ls[0];
      LineEndIs(l, 0, |l|);
      assert l[..|l|] == l;
    } else if |ls| > 1 {
      var l := ls[0];
      var rest := Join(ls[1..], "\n");
      var s := l + "\n" + rest;
      forall k | 0 <= k < |l| ensures !PyLineBreak(s[k]) {
        assert s[k] == l[k];
      }
      assert s[|l|] == '\n';
      LineEndIs(s, 0, |l|);
      assert NextLine(s, |l|) == |l| + 1;
      var head := s[..|l|];
      var t := s[|l| + 1..];
      calc {
        SplitLines(Join(ls, "\n"));
        SplitLines(s);
        [head] + SplitLines(t);
        { assert head == l; assert t == rest; SplitLinesJoin(ls[1..]); }
        [l] + ls[1..];
        ls;
      }
    }
  }

  /**
   * `s` with each line break written as "\n" (`\r\n` as a single one) and every other
   * character kept.
   */
  function NormalizeBreaks(s: string): (r: string)
    ensures r == [] <==> s == []
    decreases |s|
  {
    if s == [] then []
    else if PyLineBreak(s[0]) then "\n" + NormalizeBreaks(s[NextLine(s, 0)..])
    else [s[0]] + NormalizeBreaks(s[1..])
  }

  /** `s` without its final "\n", if it has one. */
  function DropFinalNewline(s: string): string {
    if s != [] && s[|s| - 1] == '\n' then s[..|s| - 1] else s
  }

  lemma ConcatAssoc(a: string, b: string, c: string)
    ensures a + (b + c) == (a + b) + c
  {
  }

  /** A run of characters without line breaks passes through NormalizeBreaks unchanged. */
  lemma {:induction false} NormalizePrefix(p: string, rest: string)
    requires NoneOf(p, PyLineBreak)
    ensures NormalizeBreaks(p + rest) == p + NormalizeBreaks(rest)
    decreases |p|
  {
    if p == [] {
      assert p + rest == rest;
    } else {
      var tail := p[1..];
      assert (p + rest)[0] == p[0];
      assert (p + rest)[1..] == tail + rest;
      assert NoneOf(tail, PyLineBreak) by {
        forall k | 0 <= k < |tail| ensures !PyLineBreak(tail[k]) {
          assert tail[k] == p[k + 1];
        }
      }
      NormalizePrefix(tail, rest);
      ConcatAssoc([p[0]], tail, NormalizeBreaks(rest));
      assert [p[0]] + tail == p;
    }
  }

  /** Dropping a final "\n" from `a + b` only touches `b`, when `b` is not empty. */
  lemma DropFinalAppend(a: string, b: string)
    requires b != []
    ensures DropFinalNewline(a + b) == a + DropFinalNewline(b)
  {
    if b[|b| - 1] == '\n' {
      assert (a + b)[..|a + b| - 1] == a + b[..|b| - 1];
    }
  }

  /** NormalizeBreaks keeps the first line of `s` and writes the break after it as "\n". */
  lemma NormalizeFirstLine(s: string, j: nat)
    requires s != [] && j == LineEndFrom(s, 0)
    ensures j == |s| ==> NormalizeBreaks(s) == s
    ensures j < |s| ==> NormalizeBreaks(s) == s[..j] + "\n" + NormalizeBreaks(s[NextLine(s, j)..])
  {
    var head := s[..j];
    var after := s[j..];
    assert NoneOf(head, PyLineBreak) by {
      forall k | 0 <= k < j ensures !PyLineBreak(head[k]) {
        assert head[k] == s[k];
      }
    }
    assert s == head + after;
    NormalizePrefix(head, after);
    if j < |s| {
      NormalizeAtBreak(s, j);
      ConcatAssoc(head, "\n", NormalizeBreaks(s[NextLine(s, j)..]));
    } else {
      assert after == [];
    }
  }

  /** From a line break on, NormalizeBreaks writes that break as "\n" and goes on after it. */
  lemma NormalizeAtBreak(s: string, j: nat)
    requires j < |s| && PyLineBreak(s[j])
    ensures NormalizeBreaks(s[j..]) == "\n" + NormalizeBreaks(s[NextLine(s, j)..])
  {
    var after := s[j..];
    var n := NextLine(s, j);
    assert after[0] == s[j];
    assert NextLine(after, 0) == n - j by {
      if j + 1 < |s| {
        assert after[1] == s[j + 1];
      }
    }
    assert after[n - j..] == s[n..];
  }

  /**
   * The lines of `s` joined with "\n" are `s` with every line break written as "\n",
   * short of a final one: lines are cut exactly at the line breaks, no character is
   * lost and a final break opens no further line.
   */
  lemma {:induction false} SplitLinesNormalized(s: string)
    ensures Join(SplitLines(s), "\n") == DropFinalNewline(NormalizeBreaks(s))
    decreases |s|
  {
    if s != [] {
      var j := LineEndFrom(s, 0);
      var head := s[..j];
      NormalizeFirstLine(s, j);
      if j == |s| {
        assert head == s;
        assert SplitLines(s) == [s];
        assert s[|s| - 1] != '\n';
      } else {
        var t := s[NextLine(s, j)..];
        var lines := SplitLines(t);
        var normal := NormalizeBreaks(t);
        assert SplitLines(s) == [head] + lines;
        if t == [] {
          assert Join([head], "\n") == head;
          assert (head + "\n")[..|head + "\n"| - 1] == head;
        } else {
          SplitLinesNormalized(t);
          JoinCons(head, lines, "\n");
          DropFinalAppend(head + "\n", normal);
        }
      }
    }
  }

  // ---------------------------------------------------------------------------
  // Lists of strings

  /** `xs` with each element stripped of `ws`, in order. */
  function StripAll(xs: seq<string>, ws: char -> bool): (r: seq<string>)
    ensures |r| == |xs|
  {
    if xs == [] then [] else [Strip(xs[0], ws)] + StripAll(xs[1..], ws)
  }

  /** The element at each index is the stripped element of `xs` at that index. */
  lemma {:induction false} StripAllAt(xs: seq<string>, ws: char -> bool)
    ensures forall k :: 0 <= k < |xs| ==> StripAll(xs, ws)[k] == Strip(xs[k], ws)
    decreases |xs|
  {
    if xs != [] {
      StripAllAt(xs[1..], ws);
      var r := StripAll(xs, ws);
      assert r == [Strip(xs[0], ws)] + StripAll(xs[1..], ws);
      forall k | 1 <= k < |xs| ensures r[k] == Strip(xs[k], ws) {
        assert xs[1..][k - 1] == xs[k];
      }
    }
  }

  /** The non-empty elements of `xs`, in order: Python's `[x for x in xs if x]`. */
  function NonBlank(xs: seq<string>): (r: seq<string>)
    ensures |r| <= |xs|
  {
    if xs == [] then [] else (if xs[0] == [] then [] else [xs[0]]) + NonBlank(xs[1..])
  }

  /**
   * What is kept is exactly the non-empty elements: each kept string is a non-empty
   * element of `xs`, and every non-empty element of `xs` is kept.
   */
  lemma {:induction false} NonBlankMembers(xs: seq<string>)
    ensures forall k :: 0 <= k < |NonBlank(xs)| ==> NonBlank(xs)[k] != [] && NonBlank(xs)[k] in xs
    ensures forall x :: x in xs && x != [] ==> x in NonBlank(xs)
    decreases |xs|
  {
    if xs != [] {
      var tail := xs[1..];
      NonBlankMembers(tail);
      var head := if xs[0] == [] then [] else [xs[0]];
      var rest := NonBlank(tail);
      assert NonBlank(xs) == head + rest;
      assert forall x :: x in tail ==> x in xs;
      forall x | x in xs && x != [] ensures x in head + rest {
        var k :| 0 <= k < |xs| && xs[k] == x;
        if k > 0 {
          assert tail[k - 1] == x;
        }
      }
    }
  }

  /** Nothing is kept exactly when every element is empty. */
  lemma NonBlankEmpty(xs: seq<string>)
    ensures NonBlank(xs) == [] <==> forall k :: 0 <= k < |xs| ==> xs[k] == []
  {
    NonBlankMembers(xs);
    if NonBlank(xs) == [] {
      forall k | 0 <= k < |xs| ensures xs[k] == [] {
        assert xs[k] in xs;
      }
    } else {
      assert NonBlank(xs)[0] in xs;
    }
  }

  /** Dropping blanks distributes over concatenation, so the order of what is kept is preserved. */
  lemma {:induction false} NonBlankAppend(a: seq<string>, b: seq<string>)
    ensures NonBlank(a + b) == NonBlank(a) + NonBlank(b)
    decreases |a|
  {
    if a != [] {
      var head := if a[0] == [] then [] else [a[0]];
      calc {
        NonBlank(a + b);
        { assert (a + b)[0] == a[0]; assert (a + b)[1..] == a[1..] + b; }
        head + NonBlank(a[1..] + b);
        { NonBlankAppend(a[1..], b); }
        head + (NonBlank(a[1..]) + NonBlank(b));
        (head + NonBlank(a[1..])) + NonBlank(b);
        NonBlank(a) + NonBlank(b);
      }
    } else {
      assert a + b == b;
    }
  }

  /** A list with no empty element keeps every element. */
  lemma {:induction false} NonBlankKeepsAll(xs: seq<string>)
    requires forall k :: 0 <= k < |xs| ==> xs[k] != []
    ensures NonBlank(xs) == xs
    decreases |xs|
  {
    if xs != [] {
      NonBlankKeepsAll(xs[1..]);
    }
  }

  lemma {:induction false} StripAllAppend(a: seq<string>, b: seq<string>, ws: char -> bool)
    ensures StripAll(a + b, ws) == StripAll(a, ws) + StripAll(b, ws)
    decreases |a|
  {
    if a != [] {
      var head := [Strip(a[0], ws)];
      calc {
        StripAll(a + b, ws);
        { assert (a + b)[0] == a[0]; assert (a + b)[1..] == a[1..] + b; }
        head + StripAll(a[1..] + b, ws);
        { StripAllAppend(a[1..], b, ws); }
        head + (StripAll(a[1..], ws) + StripAll(b, ws));
        (head + StripAll(a[1..], ws)) + StripAll(b, ws);
        StripAll(a, ws) + StripAll(b, ws);
      }
    } else {
      assert a + b == b;
    }
  }

  /** Strings made of `ws` only, joined by a separator made of `ws` only, are `ws` only. */
  lemma {:induction false} JoinAll(xs: seq<string>, sep: string, ws: char -> bool)
    requires forall k :: 0 <= k < |xs| ==> All(xs[k], ws)
    requires All(sep, ws)
    ensures All(Join(xs, sep), ws)
    decreases |xs|
  {
    if |xs| > 1 {
      JoinAll(xs[1..], sep, ws);
      var j := Join(xs[1..], sep);
      var s := xs[0] + sep + j;
      forall k | 0 <= k < |s| ensures ws(s[k]) {
        if k < |xs[0]| { assert s[k] == xs[0][k]; }
        else if k < |xs[0]| + |sep| { assert s[k] == sep[k - |xs[0]|]; }
        else { assert s[k] == j[k - |xs[0]| - |sep|]; }
      }
    }
  }
}
