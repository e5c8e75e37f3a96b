/**
 * The chat page (`frontend/src/app/page.tsx`): a transcript of turns and a busy flag,
 * updated by three handlers. Each handler sets the flag, calls the backend, appends the
 * turn for the outcome and clears the flag in its `finally` block.
 */
module Conversation {
  import opened Wrappers
  import opened Fetch

  datatype Role = User | Assistant

  /** Where an answer came from: a `source` label and an optional link or file name. */
  datatype Citation = Citation(source: string, url: Option<string>, filename: Option<string>)

  /** One entry of the transcript; `sources` is absent on user turns and on failures. */
  datatype Turn = Turn(role: Role, content: string, sources: Option<seq<Citation>>)

  /** The JSON body of a `/chat` answer. */
  datatype ChatBody = ChatBody(response: string, sources: Option<seq<Citation>>)

  datatype Endpoint = UploadPdf | UploadUrl | Chat

  /**
   * One call to the backend as it leaves the page: the endpoint, the file name, URL or
   * message sent, and the busy flag and transcript while the call is awaited.
   */
  datatype Request = Request(endpoint: Endpoint, payload: string, busy: bool, transcript: seq<Turn>)

  const PdfError: string := "Error processing PDF. Please try again."
  const UrlError: string := "Error processing URL. Please try again."
  const ChatError: string := "Error getting response. Please try again."
  const PdfSuccess: string := "Successfully processed PDF: "
  const UrlSuccess: string := "Successfully processed URL: "

  /**
   * A handler takes the success path only when the status is 2xx and the body parses:
   * a non-ok status throws, and so does `response.json()` on a body that is not JSON,
   * both inside the `try`.
   */
  predicate Succeeded<T>(r: FetchResult<T>) {
    r.Response? && r.ok && r.json.Some?
  }

  /** A failure turn: from the assistant, with the given fixed text and no sources. */
  predicate IsFailure(t: Turn, text: string) {
    t == Turn(Assistant, text, None)
  }

  /** The turn `handleFileUpload` appends for the upload of the file `name`. */
  function PdfTurn(name: string, result: FetchResult<()>): (t: Turn)
    ensures t.role == Assistant
    ensures Succeeded(result) <==> t.sources.Some?
    ensures Succeeded(result) ==>
      t.content == PdfSuccess + name && t.sources == Some([Citation("PDF", None, Some(name))])
    ensures !Succeeded(result) ==> IsFailure(t, PdfError)
  {
    if Succeeded(result) then Turn(Assistant, PdfSuccess + name, Some([Citation("PDF", None, Some(name))]))
    else Turn(Assistant, PdfError, None)
  }

  /** The turn `handleUrlSubmit` appends for the submission of `url`. */
  function UrlTurn(url: string, result: FetchResult<()>): (t: Turn)
    ensures t.role == Assistant
    ensures Succeeded(result) <==> t.sources.Some?
    ensures Succeeded(result) ==>
      t.content == UrlSuccess + url && t.sources == Some([Citation("URL", Some(url), None)])
    ensures !Succeeded(result) ==> IsFailure(t, UrlError)
  {
    if Succeeded(result) then Turn(Assistant, UrlSuccess + url, Some([Citation("URL", Some(url), None)]))
    else Turn(Assistant, UrlError, None)
  }

  /**
   * The two turns `handleSendMessage` appends: the user's message, then the answer with
   * its sources, or the fixed failure text.
   */
  function SendTurns(message: string, result: FetchResult<ChatBody>): (ts: seq<Turn>)
    ensures |ts| == 2
    ensures ts[0] == Turn(User, message, None)
    ensures ts[1].role == Assistant
    ensures Succeeded(result) ==>
      ts[1].content == result.json.value.response && ts[1].sources == result.json.value.sources
    ensures !Succeeded(result) ==> IsFailure(ts[1], ChatError)
  {
    [Turn(User, message, None),
     if Succeeded(result) then Turn(Assistant, result.json.value.response, result.json.value.sources)
     else Turn(Assistant, ChatError, None)]
  }

  /** Every user turn is directly followed by an assistant turn. */
  predicate Answered(ms: seq<Turn>) {
    forall i :: 0 <= i < |ms| && ms[i].role == User ==> i + 1 < |ms| && ms[i + 1].role == Assistant
  }

  /** Appending an answered run of turns to an answered transcript keeps it answered. */
  lemma AnsweredAppend(a: seq<Turn>, b: seq<Turn>)
    requires Answered(a) && Answered(b)
    ensures Answered(a + b)
  {
    var ab := a + b;
    forall i | 0 <= i < |ab| && ab[i].role == User ensures i + 1 < |ab| && ab[i + 1].role == Assistant {
      if i < |a| {
        assert a[i].role == User;
      } else {
        assert b[i - |a|].role == User;
        assert ab[i + 1] == b[i - |a| + 1];
      }
    }
  }

  /** A single assistant turn is answered: it holds no user turn at all. */
  lemma AssistantTurnAnswered(t: Turn)
    requires t.role == Assistant
    ensures Answered([t])
  {
  }

  /** The two turns of a send are answered: the user's message is followed by the reply. */
  lemma SendTurnsAnswered(message: string, result: FetchResult<ChatBody>)
    ensures Answered(SendTurns(message, result))
  {
    var ts := SendTurns(message, result);
    assert ts[1].role != User;
  }

  /** The page's state: the transcript and the busy flag. */
  class Home {
    var messages: seq<Turn>
    var isLoading: bool
    /** The calls made to the backend, in order. */
    ghost var requests: seq<Request>

    constructor ()
      ensures messages == [] && !isLoading && requests == []
    {
      messages := [];
      isLoading := false;
      requests := [];
    }

    /**
     * `handleFileUpload`: posts the file while busy, appends exactly one assistant
     * turn for the outcome and is no longer busy afterwards.
     */
    method HandleFileUpload(name: string, result: FetchResult<()>)
      modifies this
      ensures requests == old(requests) + [Request(UploadPdf, name, true, old(messages))]
      ensures messages == old(messages) + [PdfTurn(name, result)]
      ensures !isLoading
      ensures Answered(old(messages)) ==> Answered(messages)
    {
      isLoading := true;
      requests := requests + [Request(UploadPdf, name, isLoading, messages)];
      if Succeeded(result) {
        messages := messages + [Turn(Assistant, PdfSuccess + name, Some([Citation("PDF", None, Some(name))]))];
      } else {
        messages := messages + [Turn(Assistant, PdfError, None)];
      }
      isLoading := false;
      AssistantTurnAnswered(PdfTurn(name, result));
      if Answered(old(messages)) {
        AnsweredAppend(old(messages), [PdfTurn(name, result)]);
      }
    }

    /**
     * `handleUrlSubmit`: posts the URL while busy, appends exactly one assistant turn
     * for the outcome and is no longer busy afterwards. It never rejects.
     */
    method HandleUrlSubmit(url: string, result: FetchResult<()>)
      modifies this
      ensures requests == old(requests) + [Request(UploadUrl, url, true, old(messages))]
      ensures messages == old(messages) + [UrlTurn(url, result)]
      ensures !isLoading
      ensures Answered(old(messages)) ==> Answered(messages)
    {
      isLoading := true;
      requests := requests + [Request(UploadUrl, url, isLoading, messages)];
      if Succeeded(result) {
        messages := messages + [Turn(Assistant, UrlSuccess + url, Some([Citation("URL", Some(url), None)]))];
      } else {
        messages := messages + [Turn(Assistant, UrlError, None)];
      }
      isLoading := false;
      AssistantTurnAnswered(UrlTurn(url, result));
      if Answered(old(messages)) {
        AnsweredAppend(old(messages), [UrlTurn(url, result)]);
      }
    }

    /**
     * `handleSendMessage`: appends the user's turn, then becomes busy and posts the
     * message, so the request already sees the user's turn; then appends the answer
     * turn and is no longer busy.
     */
    method HandleSendMessage(message: string, result: FetchResult<ChatBody>)
      modifies this
      ensures requests == old(requests) + [Request(Chat, message, true, old(messages) + [Turn(User, message, None)])]
      ensures messages == old(messages) + SendTurns(message, result)
      ensures !isLoading
      ensures Answered(old(messages)) ==> Answered(messages)
    {
      messages := messages + [Turn(User, message, None)];
      isLoading := true;
      requests := requests + [Request(Chat, message, isLoading, messages)];
      if Succeeded(result) {
        var data := result.json.value;
        messages := messages + [Turn(Assistant, data.response, data.sources)];
      } else {
        messages := messages + [Turn(Assistant, ChatError, None)];
      }
      isLoading := false;
      SendTurnsAnswered(message, result);
      if Answered(old(messages)) {
        AnsweredAppend(old(messages), SendTurns(message, result));
      }
    }
  }
}
