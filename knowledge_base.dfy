/**
 * The backend's knowledge base: `/upload` appends the posted text and a newline to the
 * knowledge file, `/chat` answers from the paragraph of that file most similar to the
 * question. The embedding model and the language model are outside the model: the
 * similarity of a paragraph to the question and the text generated for a prompt are
 * function parameters.
 */
module KnowledgeBase {
  import opened Wrappers
  import opened Text

  const Newline: string := "\n"
  const UploadedMessage: string := "Knowledge uploaded successfully."
  const EmptyKnowledgeReply: string := "Knowledge base is empty."
  const PromptIntro: string := "Use the following knowledge to answer the question:\n\nKnowledge:\n"
  const PromptQuestion: string := "\n\nQuestion:\n"
  const PromptAnswer: string := "\n\nAnswer:"

  // ---------------------------------------------------------------------------
  // Reading the file

  /** A carriage return. */
  predicate IsCr(c: char) {
    c == '\r'
  }

  /** A character as a text-mode read delivers it: a carriage return becomes "\n". */
  function ReadChar(c: char): char {
    if IsCr(c) then '\n' else c
  }

  /** How many characters of `s` the first character read stands for: two for "\r\n". */
  function ReadWidth(s: string): nat
    requires s != []
  {
    if IsCr(s[0]) && |s| > 1 && s[1] == '\n' then 2 else 1
  }

  /**
   * The text `open(..., "r")` reads from a file holding `s`: with Python's universal
   * newlines each "\r\n" and each lone "\r" arrives as "\n", every other character as
   * it is.
   */
  function ReadText(s: string): (r: string)
    ensures |r| <= |s|
    ensures r == [] <==> s == []
    decreases |s|
  {
    if s == [] then [] else [ReadChar(s[0])] + ReadText(s[ReadWidth(s)..])
  }

  /** Text read from the file holds no carriage return. */
  lemma {:induction false} ReadTextNoCr(s: string)
    ensures NoneOf(ReadText(s), IsCr)
    decreases |s|
  {
    if s != [] {
      var rest := s[ReadWidth(s)..];
      ReadTextNoCr(rest);
      assert ReadText(s) == [ReadChar(s[0])] + ReadText(rest);
    }
  }

  /** Text without carriage returns is read back unchanged. */
  lemma {:induction false} ReadTextPlain(s: string)
    requires NoneOf(s, IsCr)
    ensures ReadText(s) == s
    decreases |s|
  {
    if s != [] {
      assert !IsCr(s[0]);
      assert NoneOf(s[1..], IsCr) by {
        forall k | 0 <= k < |s[1..]| ensures !IsCr(s[1..][k]) {
          assert s[1..][k] == s[k + 1];
        }
      }
      ReadTextPlain(s[1..]);
      assert s == [s[0]] + s[1..];
    }
  }

  /** Reading text that has already been read changes nothing. */
  lemma ReadTextTwice(s: string)
    ensures ReadText(ReadText(s)) == ReadText(s)
  {
    ReadTextNoCr(s);
    ReadTextPlain(ReadText(s));
  }

  /** The text read is whitespace only exactly when the file's contents are. */
  lemma {:induction false} ReadTextBlank(s: string)
    ensures All(ReadText(s), PySpace) <==> All(s, PySpace)
    decreases |s|
  {
    if s != [] {
      var w := ReadWidth(s);
      var rest := s[w..];
      var read := ReadText(s);
      ReadTextBlank(rest);
      assert read == [ReadChar(s[0])] + ReadText(rest);
      assert PySpace(ReadChar(s[0])) <==> PySpace(s[0]);
      if All(s, PySpace) {
        assert All(rest, PySpace) by {
          forall k | 0 <= k < |rest| ensures PySpace(rest[k]) {
            assert rest[k] == s[k + w];
          }
        }
        forall k | 0 <= k < |read| ensures PySpace(read[k]) {
          if k > 0 {
            assert read[k] == ReadText(rest)[k - 1];
          }
        }
      }
      if All(read, PySpace) {
        assert All(ReadText(rest), PySpace) by {
          forall k | 0 <= k < |ReadText(rest)| ensures PySpace(ReadText(rest)[k]) {
            assert ReadText(rest)[k] == read[k + 1];
          }
        }
        forall k | 0 <= k < |s| ensures PySpace(s[k]) {
          if k >= w {
            assert s[k] == rest[k - w];
          } else if k == 1 {
            assert s[1] == '\n';
          } else {
            assert read[0] == ReadChar(s[0]);
          }
        }
      }
    }
  }

  /**
   * Reading two pieces of a file one after the other gives what reading the whole gives,
   * unless the cut splits a "\r\n".
   */
  lemma {:induction false} ReadTextAppend(a: string, b: string)
    requires a == [] || b == [] || !IsCr(a[|a| - 1]) || b[0] != '\n'
    ensures ReadText(a + b) == ReadText(a) + ReadText(b)
    decreases |a|
  {
    if a == [] {
      assert a + b == b;
    } else {
      var w := ReadWidth(a);
      var tail := a[w..];
      ReadStepAppend(a, b);
      if tail != [] {
        assert tail[|tail| - 1] == a[|a| - 1];
      }
      ReadTextAppend(tail, b);
      var head := [ReadChar(a[0])];
      var x, y := ReadText(tail), ReadText(b);
      assert ReadText(a) == head + x;
      assert ReadText(a + b) == head + ReadText(tail + b);
      ConcatAssoc(head, x, y);
    }
  }

  /** The first character read from `a + b` is the first read from `a`, when no "\r\n" is cut. */
  lemma ReadStepAppend(a: string, b: string)
    requires a != []
    requires b == [] || !IsCr(a[|a| - 1]) || b[0] != '\n'
    ensures (a + b)[0] == a[0]
    ensures ReadWidth(a + b) == ReadWidth(a)
    ensures (a + b)[ReadWidth(a)..] == a[ReadWidth(a)..] + b
  {
    if |a| > 1 {
      assert (a + b)[1] == a[1];
    }
  }

  /**
   * A newline written after `s` is read as one more "\n", unless `s` ends in "\r": then
   * that "\r" and the newline are read as a single "\n", which the read of `s` alone
   * already ends with.
   */
  lemma ReadTextNewline(s: string)
    ensures s == [] || !IsCr(s[|s| - 1]) ==> ReadText(s + Newline) == ReadText(s) + Newline
    ensures s != [] && IsCr(s[|s| - 1]) ==>
      ReadText(s + Newline) == ReadText(s) == ReadText(s[..|s| - 1]) + Newline
  {
    var cr: string := "\r";
    var crlf: string := "\r\n";
    assert ReadText(Newline) == Newline by {
      assert Newline[1..] == [];
    }
    assert ReadText(cr) == Newline by {
      assert cr[1..] == [];
    }
    assert ReadText(crlf) == Newline by {
      assert crlf[2..] == [];
    }
    if s == [] || !IsCr(s[|s| - 1]) {
      ReadTextAppend(s, Newline);
    } else {
      var u := s[..|s| - 1];
      assert s == u + cr;
      assert s + Newline == u + crlf;
      ReadTextAppend(u, cr);
      ReadTextAppend(u, crlf);
    }
  }

  // ---------------------------------------------------------------------------
  // Paragraphs

  /** A paragraph: non-empty, without surrounding whitespace, without "\n". */
  predicate IsParagraph(p: string) {
    p != [] && !PySpace(p[0]) && !PySpace(p[|p| - 1]) && FreeOf(p, Newline)
  }

  /** A stripped line of the knowledge base: a paragraph unless it is blank. */
  predicate StrippedLine(p: string) {
    (p != [] ==> !PySpace(p[0]) && !PySpace(p[|p| - 1])) && FreeOf(p, Newline)
  }

  lemma StrippedLines(knowledge: string)
    ensures forall k :: 0 <= k < |StripAll(SplitOn(knowledge, Newline), PySpace)| ==>
      StrippedLine(StripAll(SplitOn(knowledge, Newline), PySpace)[k])
  {
    var lines := SplitOn(knowledge, Newline);
    SplitOnPiecesFree(knowledge, Newline);
    StripAllAt(lines, PySpace);
    forall k | 0 <= k < |lines| ensures StrippedLine(Strip(lines[k], PySpace)) {
      StripKeepsFreeOf(lines[k], PySpace, Newline);
    }
  }

  lemma KeptParagraphs(stripped: seq<string>)
    requires forall k :: 0 <= k < |stripped| ==> StrippedLine(stripped[k])
    ensures forall k :: 0 <= k < |NonBlank(stripped)| ==> IsParagraph(NonBlank(stripped)[k])
  {
    var ps := NonBlank(stripped);
    NonBlankMembers(stripped);
    forall k | 0 <= k < |ps| ensures IsParagraph(ps[k]) {
      assert ps[k] in stripped;
      var j :| 0 <= j < |stripped| && stripped[j] == ps[k];
      assert StrippedLine(stripped[j]);
    }
  }

  /**
   * The paragraphs of the knowledge base: its text split at every "\n", each line
   * stripped, the blank ones dropped, in order. Each paragraph is non-empty, already
   * stripped and holds no "\n".
   */
  function Paragraphs(knowledge: string): (ps: seq<string>)
    ensures forall k :: 0 <= k < |ps| ==> IsParagraph(ps[k])
  {
    StrippedLines(knowledge);
    KeptParagraphs(StripAll(SplitOn(knowledge, Newline), PySpace));
    NonBlank(StripAll(SplitOn(knowledge, Newline), PySpace))
  }

  /** The knowledge base has no paragraph exactly when its text is whitespace only. */
  lemma ParagraphsEmpty(knowledge: string)
    ensures Paragraphs(knowledge) == [] <==> All(knowledge, PySpace)
  {
    var lines := SplitOn(knowledge, Newline);
    var stripped := StripAll(lines, PySpace);
    StripAllAt(lines, PySpace);
    NonBlankEmpty(stripped);
    var notSpace := c => !PySpace(c);
    if All(knowledge, PySpace) {
      assert NoneOf(knowledge, notSpace);
      SplitOnKeepsNoneOf(knowledge, Newline, notSpace);
      forall k | 0 <= k < |lines| ensures stripped[k] == [] {
        assert NoneOf(lines[k], notSpace);
        assert All(lines[k], PySpace);
      }
    }
    if Paragraphs(knowledge) == [] {
      forall k | 0 <= k < |lines| ensures All(lines[k], PySpace) {
        assert stripped[k] == [];
      }
      JoinAll(lines, Newline, PySpace);
      SplitOnJoin(knowledge, Newline);
    }
  }

  /** Knowledge joined at a newline has the paragraphs of both parts, in order. */
  lemma ParagraphsAround(a: string, b: string)
    ensures Paragraphs(a + Newline + b) == Paragraphs(a) + Paragraphs(b)
  {
    SplitOnAround(a, Newline, b);
    StripAllAppend(SplitOn(a, Newline), SplitOn(b, Newline), PySpace);
    NonBlankAppend(StripAll(SplitOn(a, Newline), PySpace), StripAll(SplitOn(b, Newline), PySpace));
  }

  /** A trailing newline adds no paragraph. */
  lemma ParagraphsNewlineEnd(a: string)
    ensures Paragraphs(a + Newline) == Paragraphs(a)
  {
    var blank: string := [];
    ParagraphsEmpty(blank);
    ParagraphsAround(a, blank);
    assert a + Newline + blank == a + Newline;
  }

  /**
   * Appending `text + "\n"` to a knowledge base that is empty or ends in a newline adds
   * the paragraphs of `text` after the existing ones and changes none of them.
   */
  lemma UploadAppendsParagraphs(knowledge: string, text: string)
    requires knowledge == [] || knowledge[|knowledge| - 1] == '\n'
    ensures Paragraphs(knowledge + text + Newline) == Paragraphs(knowledge) + Paragraphs(text)
  {
    if knowledge == [] {
      ParagraphsEmpty(knowledge);
      assert knowledge + text + Newline == text + Newline;
      ParagraphsNewlineEnd(text);
    } else {
      var front := knowledge[..|knowledge| - 1];
      assert knowledge == front + Newline;
      AppendAfterLine(front, text);
    }
  }

  /**
   * Read back, the file after an upload has the paragraphs it had before and then those
   * of the uploaded text, when the file was empty or ended in a newline.
   */
  lemma UploadReadsParagraphs(knowledge: string, text: string)
    requires knowledge == [] || knowledge[|knowledge| - 1] == '\n'
    ensures Paragraphs(ReadText(knowledge + text + Newline)) ==
      Paragraphs(ReadText(knowledge)) + Paragraphs(ReadText(text))
  {
    assert knowledge + text + Newline == knowledge + (text + Newline);
    ReadTextAppend(knowledge, text + Newline);
    ReadEndsInNewline(knowledge);
    ParagraphsAfterRead(ReadText(knowledge), text);
  }

  /** Text that is empty or ends in a newline is read as text that does too. */
  lemma ReadEndsInNewline(knowledge: string)
    requires knowledge == [] || knowledge[|knowledge| - 1] == '\n'
    ensures ReadText(knowledge) == [] || ReadText(knowledge)[|ReadText(knowledge)| - 1] == '\n'
  {
    if knowledge != [] {
      var front := knowledge[..|knowledge| - 1];
      assert knowledge == front + Newline;
      ReadTextNewline(front);
    }
  }

  /**
   * After read text that is empty or ends in a newline, the read of `text + "\n"` adds
   * the paragraphs of `text` read alone.
   */
  lemma ParagraphsAfterRead(before: string, text: string)
    requires before == [] || before[|before| - 1] == '\n'
    ensures Paragraphs(before + ReadText(text + Newline)) == Paragraphs(before) + Paragraphs(ReadText(text))
  {
    ReadTextNewline(text);
    var last := if text == [] || !IsCr(text[|text| - 1]) then ReadText(text) else ReadText(text[..|text| - 1]);
    assert ReadText(text + Newline) == last + Newline;
    assert before + (last + Newline) == before + last + Newline;
    UploadAppendsParagraphs(before, last);
    if last != ReadText(text) {
      ParagraphsNewlineEnd(last);
    }
  }

  /** After a line that ends in a newline, an upload adds the paragraphs of its text. */
  lemma AppendAfterLine(front: string, text: string)
    ensures Paragraphs(front + Newline + text + Newline) == Paragraphs(front + Newline) + Paragraphs(text)
  {
    var tail := text + Newline;
    var whole := front + Newline + text + Newline;
    assert whole == front + Newline + tail;
    ParagraphsNewlineEnd(text);
    ParagraphsNewlineEnd(front);
    ParagraphsAround(front, tail);
  }

  // ---------------------------------------------------------------------------
  // Choosing the paragraph

  /** The index of the first greatest element, as numpy's `argmax`. */
  function ArgMax(xs: seq<real>): (i: nat)
    requires xs != []
    ensures i < |xs|
    ensures forall j :: 0 <= j < |xs| ==> xs[j] <= xs[i]
    ensures forall j :: 0 <= j < i ==> xs[j] < xs[i]
  {
    if |xs| == 1 then 0
    else
      var k := ArgMax(xs[..|xs| - 1]);
      assert forall j :: 0 <= j < |xs| - 1 ==> xs[..|xs| - 1][j] == xs[j];
      if xs[|xs| - 1] > xs[k] then |xs| - 1 else k
  }

  /** The similarity of each paragraph to the question, in paragraph order. */
  function Scores(ps: seq<string>, similarity: string -> real): (scores: seq<real>)
    ensures |scores| == |ps|
    ensures forall k :: 0 <= k < |ps| ==> scores[k] == similarity(ps[k])
  {
    seq(|ps|, k requires 0 <= k < |ps| => similarity(ps[k]))
  }

  // ---------------------------------------------------------------------------
  // The prompt

  /** The prompt sent to the language model for a chosen paragraph and a question. */
  function Prompt(paragraph: string, question: string): (prompt: string)
    ensures |prompt| == |PromptIntro| + |paragraph| + |PromptQuestion| + |question| + |PromptAnswer|
    ensures prompt[..|PromptIntro|] == PromptIntro
    ensures prompt[|PromptIntro|..|PromptIntro| + |paragraph|] == paragraph
    ensures prompt[|prompt| - |PromptAnswer|..] == PromptAnswer
  {
    PromptIntro + paragraph + PromptQuestion + question + PromptAnswer
  }

  /**
   * Reads a prompt back into its paragraph and question: the paragraph runs from the
   * end of the introduction to the first "\n", the question sits between the question
   * heading and the closing "Answer:" line.
   */
  function PromptParts(prompt: string): Option<(string, string)> {
    if |prompt| < |PromptIntro| || prompt[..|PromptIntro|] != PromptIntro then None
    else
      var body := prompt[|PromptIntro|..];
      var i := FindFrom(body, Newline, 0);
      var rest := body[i..];
      if |rest| < |PromptQuestion| + |PromptAnswer| || rest[..|PromptQuestion|] != PromptQuestion
         || rest[|rest| - |PromptAnswer|..] != PromptAnswer
      then None
      else Some((body[..i], rest[|PromptQuestion|..|rest| - |PromptAnswer|]))
  }

  /**
   * The prompt carries the chosen paragraph and then the question, both unaltered:
   * reading it back gives them again, for every paragraph without a line break.
   */
  lemma PromptRoundTrip(paragraph: string, question: string)
    requires FreeOf(paragraph, Newline)
    ensures PromptParts(Prompt(paragraph, question)) == Some((paragraph, question))
  {
    var prompt := Prompt(paragraph, question);
    assert prompt[..|PromptIntro|] == PromptIntro;
    var body := prompt[|PromptIntro|..];
    var tail := PromptQuestion + question + PromptAnswer;
    assert body == paragraph + tail;
    forall j | 0 <= j < |paragraph| ensures !SepAt(body, Newline, j) {
      assert !SepAt(paragraph, Newline, j);
      SepAtAll(paragraph, Newline, j);
      SepAtAll(body, Newline, j);
      assert body[j + 0] == paragraph[j + 0];
    }
    SepAtAll(body, Newline, |paragraph|);
    assert body[|paragraph| + 0] == Newline[0];
    FindFromIs(body, Newline, 0, |paragraph|);
    var rest := body[|paragraph|..];
    assert rest == tail;
    assert body[..|paragraph|] == paragraph;
    assert rest[..|PromptQuestion|] == PromptQuestion;
    assert rest[|rest| - |PromptAnswer|..] == PromptAnswer;
    assert rest[|PromptQuestion|..|rest| - |PromptAnswer|] == question;
  }

  /**
   * `i` is the paragraph `numpy.argmax` picks from the similarities: one of greatest
   * similarity, the first such.
   */
  predicate MostSimilar(ps: seq<string>, i: int, similarity: string -> real) {
    && 0 <= i < |ps|
    && (forall j :: 0 <= j < |ps| ==> similarity(ps[j]) <= similarity(ps[i]))
    && (forall j :: 0 <= j < i ==> similarity(ps[j]) < similarity(ps[i]))
  }

  /**
   * What `/chat` sends back: a reply, or a server error when the handler raises. The
   * handler raises when the language model's response carries no text, for then
   * `response.text` raises.
   */
  datatype ChatResponse = Reply(text: string) | ServerError

  /**
   * The response once the language model has answered: the stripped generated text, or
   * a server error when it generated none (`None`).
   */
  function ResponseTo(generated: Option<string>): (response: ChatResponse)
    ensures response.ServerError? <==> generated.None?
    ensures response.Reply? ==> exists i :: StrippedAt(generated.value, response.text, i, PySpace)
    ensures response.Reply? && response.text != [] ==>
      !PySpace(response.text[0]) && !PySpace(response.text[|response.text| - 1])
  {
    match generated
    case None => ServerError
    case Some(text) => Reply(Strip(text, PySpace))
  }

  /** Only one paragraph is the one `argmax` picks: the first of greatest similarity. */
  lemma MostSimilarUnique(ps: seq<string>, i: int, j: int, similarity: string -> real)
    requires MostSimilar(ps, i, similarity) && MostSimilar(ps, j, similarity)
    ensures i == j
  {
    assert similarity(ps[j]) <= similarity(ps[i]);
    assert similarity(ps[i]) <= similarity(ps[j]);
  }

  /**
   * The answer from non-empty paragraphs: the response to what the language model
   * generates for the prompt built from the most similar paragraph and the message.
   */
  function Answer(ps: seq<string>, message: string, similarity: string -> real, generate: string -> Option<string>): (response: ChatResponse)
    requires ps != []
    ensures exists i :: MostSimilar(ps, i, similarity) && response == ResponseTo(generate(Prompt(ps[i], message)))
  {
    var scores := Scores(ps, similarity);
    var i := ArgMax(scores);
    assert MostSimilar(ps, i, similarity);
    ResponseTo(generate(Prompt(ps[i], message)))
  }

  // ---------------------------------------------------------------------------
  // The knowledge file and the two endpoints

  /** What `/upload` answers: the success message, or 422 when the form lacks a non-empty `text`. */
  datatype UploadResponse = Uploaded(message: string) | Unprocessable

  /** `knowledge_base.txt`: `None` while the file does not exist. */
  class KnowledgeFile {
    var contents: Option<string>

    constructor ()
      ensures contents == None
    {
      contents := None;
    }

    /**
     * `/upload`: an empty `text` fails FastAPI's check of the required form field, which
     * answers 422 before the handler runs. Otherwise the handler opens the file for
     * appending (creating it when missing), writes the text and a newline, and answers
     * with the fixed success message.
     */
    method Upload(text: string) returns (response: UploadResponse)
      modifies this
      ensures text == [] ==> contents == old(contents) && response == Unprocessable
      ensures text != [] ==> contents == Some(old(contents).GetOr([]) + text + Newline)
      ensures text != [] ==> contents.value[|contents.value| - 1] == '\n'
      ensures text != [] && (old(contents).None? || old(contents).value == [] || old(contents).value[|old(contents).value| - 1] == '\n') ==>
        Paragraphs(ReadText(contents.value)) == Paragraphs(ReadText(old(contents).GetOr([]))) + Paragraphs(ReadText(text))
      ensures text != [] ==> response == Uploaded(UploadedMessage)
    {
      if text == [] {
        return Unprocessable;
      }
      var before := contents.GetOr([]);
      contents := Some(before + text + Newline);
      if before == [] || before[|before| - 1] == '\n' {
        UploadReadsParagraphs(before, text);
      }
      response := Uploaded(UploadedMessage);
    }

    /**
     * `/chat`: "Knowledge base is empty." when the file is missing or its text, read
     * back, holds no non-blank paragraph; otherwise the response to what the language
     * model generates for the prompt built from the most similar paragraph of the text
     * read back and the message.
     */
    function Chat(message: string, similarity: string -> real, generate: string -> Option<string>): (response: ChatResponse)
      reads this
      ensures contents.None? ==> response == Reply(EmptyKnowledgeReply)
      ensures contents.Some? && All(contents.value, PySpace) ==> response == Reply(EmptyKnowledgeReply)
      ensures contents.Some? && !All(contents.value, PySpace) ==>
        var ps := Paragraphs(ReadText(contents.value));
        exists i :: MostSimilar(ps, i, similarity) && response == ResponseTo(generate(Prompt(ps[i], message)))
    {
      if contents.None? then Reply(EmptyKnowledgeReply)
      else
        var knowledge := ReadText(contents.value);
        var ps := Paragraphs(knowledge);
        ParagraphsEmpty(knowledge);
        ReadTextBlank(contents.value);
        if ps == [] then Reply(EmptyKnowledgeReply)
        else Answer(ps, message, similarity, generate)
    }
  }
}
