/**
 * The clean-up both scrapers of the backend apply to the text of a fetched page
 * (`scrape_with_requests` and `scrape_with_playwright`): split the text into lines,
 * strip each line, break each line at double spaces, strip each piece, drop the
 * empty pieces and join what is left with newlines.
 */
module ScrapeCleanup {
  import opened Text

  const DoubleSpace: string := "  "

  /** The pieces of one line: the stripped line split at double spaces, each piece stripped. */
  function LinePieces(line: string): (ps: seq<string>)
    ensures ps != []
    ensures FreeOf(Strip(line, PySpace), DoubleSpace) ==> ps == [Strip(line, PySpace)]
  {
    SinglePiece(Strip(line, PySpace));
    StripAll(SplitOn(Strip(line, PySpace), DoubleSpace), PySpace)
  }

  /** A stripped line without a double space is one piece: itself. */
  lemma SinglePiece(t: string)
    requires t == [] || (!PySpace(t[0]) && !PySpace(t[|t| - 1]))
    ensures FreeOf(t, DoubleSpace) ==> StripAll(SplitOn(t, DoubleSpace), PySpace) == [t]
  {
    if FreeOf(t, DoubleSpace) {
      SplitOnFree(t, DoubleSpace);
      StripStripped(t, PySpace);
      assert StripAll([t], PySpace) == [Strip(t, PySpace)];
    }
  }

  /** The pieces of every line, line after line; every line gives at least one piece. */
  function Chunks(lines: seq<string>): (cs: seq<string>)
    ensures |cs| >= |lines|
  {
    if lines == [] then [] else LinePieces(lines[0]) + Chunks(lines[1..])
  }

  /**
   * A character the clean-up can emit: anything but a line break, and "\n", the only
   * line break it writes.
   */
  predicate KeptChar(c: char) {
    !PyLineBreak(c) || c == '\n'
  }

  /**
   * The cleaned text of a page. Its lines are separated by "\n" alone: every other line
   * break of the page (`\r`, `\x0b`, `\x1c`, U+2028 and the rest) is gone.
   */
  function CleanText(text: string): (r: string)
    ensures All(r, KeptChar)
  {
    var lines := SplitLines(text);
    ChunksArePieces(lines);
    NonBlankPieces(Chunks(lines));
    CleanLinesKept(NonBlank(Chunks(lines)));
    assert All("\n", KeptChar);
    JoinAll(NonBlank(Chunks(lines)), "\n", KeptChar);
    Join(NonBlank(Chunks(lines)), "\n")
  }

  /** Clean lines hold no line break at all. */
  lemma CleanLinesKept(ls: seq<string>)
    requires forall k :: 0 <= k < |ls| ==> CleanLine(ls[k])
    ensures forall k :: 0 <= k < |ls| ==> All(ls[k], KeptChar)
  {
    forall k | 0 <= k < |ls| ensures All(ls[k], KeptChar) {
      assert NoneOf(ls[k], PyLineBreak);
    }
  }

  /** A piece as the clean-up produces it: no surrounding whitespace, no line break, no double space. */
  predicate Piece(c: string) {
    (c != [] ==> !PySpace(c[0]) && !PySpace(c[|c| - 1]))
    && NoneOf(c, PyLineBreak) && FreeOf(c, DoubleSpace)
  }

  /** A line of cleaned text: a piece that is not empty. */
  predicate CleanLine(c: string) {
    c != [] && Piece(c)
  }

  /** Every piece of a line without line breaks is a Piece. */
  lemma LinePiecesArePieces(line: string)
    requires NoneOf(line, PyLineBreak)
    ensures forall k :: 0 <= k < |LinePieces(line)| ==> Piece(LinePieces(line)[k])
  {
    var t := Strip(line, PySpace);
    StripKeepsNoneOf(line, PySpace, PyLineBreak);
    var ps := SplitOn(t, DoubleSpace);
    SplitOnKeepsNoneOf(t, DoubleSpace, PyLineBreak);
    SplitOnPiecesFree(t, DoubleSpace);
    StripAllAt(ps, PySpace);
    forall k | 0 <= k < |ps| ensures Piece(Strip(ps[k], PySpace)) {
      StripKeepsNoneOf(ps[k], PySpace, PyLineBreak);
      StripKeepsFreeOf(ps[k], PySpace, DoubleSpace);
    }
  }

  lemma {:induction false} ChunksArePieces(lines: seq<string>)
    requires forall k :: 0 <= k < |lines| ==> NoneOf(lines[k], PyLineBreak)
    ensures forall k :: 0 <= k < |Chunks(lines)| ==> Piece(Chunks(lines)[k])
    decreases |lines|
  {
    if lines != [] {
      LinePiecesArePieces(lines[0]);
      ChunksArePieces(lines[1..]);
    }
  }

  /** The pieces kept by NonBlank are lines of cleaned text. */
  lemma NonBlankPieces(cs: seq<string>)
    requires forall k :: 0 <= k < |cs| ==> Piece(cs[k])
    ensures forall k :: 0 <= k < |NonBlank(cs)| ==> CleanLine(NonBlank(cs)[k])
  {
    var kept := NonBlank(cs);
    NonBlankMembers(cs);
    forall k | 0 <= k < |kept| ensures CleanLine(kept[k]) {
      assert kept[k] in cs;
      var j :| 0 <= j < |cs| && cs[j] == kept[k];
      assert Piece(cs[j]);
    }
  }

  /**
   * The lines of the cleaned text are exactly the non-empty stripped pieces of the
   * stripped input lines split at double spaces, in input order; each of them is
   * non-empty, has no leading or trailing whitespace, no line break and no double space.
   */
  lemma CleanTextLines(text: string)
    ensures SplitLines(CleanText(text)) == NonBlank(Chunks(SplitLines(text)))
    ensures forall k :: 0 <= k < |SplitLines(CleanText(text))| ==> CleanLine(SplitLines(CleanText(text))[k])
  {
    var cs := Chunks(SplitLines(text));
    ChunksArePieces(SplitLines(text));
    NonBlankPieces(cs);
    SplitLinesJoin(NonBlank(cs));
  }

  /** No line of the cleaned text is empty. */
  lemma CleanTextNoEmptyLine(text: string)
    ensures forall k :: 0 <= k < |SplitLines(CleanText(text))| ==> SplitLines(CleanText(text))[k] != []
  {
    CleanTextLines(text);
  }

  lemma {:induction false} ChunksOfBlankLines(lines: seq<string>)
    requires forall k :: 0 <= k < |lines| ==> All(lines[k], PySpace)
    ensures NonBlank(Chunks(lines)) == []
    decreases |lines|
  {
    if lines != [] {
      assert Strip(lines[0], PySpace) == [];
      assert SplitOn([], DoubleSpace) == [[]];
      assert LinePieces(lines[0]) == [[]];
      ChunksOfBlankLines(lines[1..]);
      NonBlankAppend(LinePieces(lines[0]), Chunks(lines[1..]));
    }
  }

  /** A page whose text is whitespace only cleans to the empty string. */
  lemma CleanWhitespaceOnly(text: string)
    requires All(text, PySpace)
    ensures CleanText(text) == []
  {
    var notSpace := c => !PySpace(c);
    assert NoneOf(text, notSpace);
    SplitLinesKeepsNoneOf(text, notSpace);
    var lines := SplitLines(text);
    forall k | 0 <= k < |lines| ensures All(lines[k], PySpace) {
      assert NoneOf(lines[k], notSpace);
    }
    ChunksOfBlankLines(lines);
  }

  lemma {:induction false} ChunksOfCleanLines(cs: seq<string>)
    requires forall k :: 0 <= k < |cs| ==> CleanLine(cs[k])
    ensures Chunks(cs) == cs
    decreases |cs|
  {
    if cs != [] {
      var c := cs[0];
      StripStripped(c, PySpace);
      assert LinePieces(c) == [c];
      assert Chunks(cs) == LinePieces(c) + Chunks(cs[1..]);
      ChunksOfCleanLines(cs[1..]);
      assert cs == [c] + cs[1..];
    }
  }

  /** Cleaning text that is already clean changes nothing: the clean-up is idempotent. */
  lemma CleanTextIdempotent(text: string)
    ensures CleanText(CleanText(text)) == CleanText(text)
  {
    var out := CleanText(text);
    CleanTextLines(text);
    var lines := SplitLines(out);
    ChunksOfCleanLines(lines);
    NonBlankKeepsAll(lines);
    SplitLinesJoin(NonBlank(Chunks(SplitLines(text))));
  }
}
