/**
 * The chat panel (`frontend/src/components/ChatInterface.tsx`): its own input field,
 * the submit handler that forwards a trimmed message to the page, and what the panel
 * shows for the page's transcript and busy flag.
 */
module ChatView {
  import opened Wrappers
  import opened Text
  import opened Fetch
  import opened Conversation

  /** The panel's input field. */
  class ChatInterface {
    var input: string
    /** Each message handed to the page, with the input field's value at that moment. */
    ghost var sent: seq<(string, string)>

    constructor ()
      ensures input == [] && sent == []
    {
      input := [];
      sent := [];
    }

    /**
     * `handleSubmit`: ignores a blank input or a submission while the page is busy;
     * otherwise clears the field and then hands the trimmed input to the page's
     * `handleSendMessage`, whose backend outcome is `result`.
     */
    method HandleSubmit(page: Home, result: FetchResult<ChatBody>)
      modifies this, page
      ensures JsBlank(old(input)) || old(page.isLoading) ==>
        input == old(input) && sent == old(sent) && page.messages == old(page.messages)
        && page.isLoading == old(page.isLoading) && page.requests == old(page.requests)
      ensures !JsBlank(old(input)) && !old(page.isLoading) ==>
        var message := Strip(old(input), JsSpace);
        && input == []
        && sent == old(sent) + [(message, [])]
        && page.messages == old(page.messages) + SendTurns(message, result)
        && page.requests == old(page.requests) + [Request(Chat, message, true, old(page.messages) + [Turn(User, message, None)])]
        && !page.isLoading
    {
      if JsBlank(input) || page.isLoading {
        return;
      }
      var message := Strip(input, JsSpace);
      input := [];
      sent := sent + [(message, input)];
      page.HandleSendMessage(message, result);
    }
  }

  /** A message handed to the page is never blank and never has surrounding whitespace. */
  lemma SentMessageTrimmed(input: string)
    requires !JsBlank(input)
    ensures var message := Strip(input, JsSpace);
      message != [] && !JsSpace(message[0]) && !JsSpace(message[|message| - 1])
      && exists i :: StrippedAt(input, message, i, JsSpace)
  {
  }

  // ---------------------------------------------------------------------------
  // What the panel shows

  /** The enabled state of the text field and of the Send button. */
  datatype Controls = Controls(inputDisabled: bool, sendDisabled: bool)

  function ControlsFor(isLoading: bool, input: string): (c: Controls)
    ensures c.inputDisabled <==> isLoading
    ensures c.sendDisabled <==> isLoading || JsBlank(input)
  {
    Controls(isLoading, isLoading || Strip(input, JsSpace) == [])
  }

  /** How one citation is shown: its URL as a link, or else its file name as text. */
  datatype CitationView = Link(href: string) | Plain(text: Option<string>)

  /** A URL is shown only when present and non-empty, since an empty string is falsy. */
  function ShowCitation(c: Citation): (v: CitationView)
    ensures v.Link? <==> c.url.Some? && c.url.value != []
    ensures v.Link? ==> v.href == c.url.value
    ensures v.Plain? ==> v.text == c.filename
  {
    match c.url
    case Some(u) => if u != [] then Link(u) else Plain(c.filename)
    case None => Plain(c.filename)
  }

  /** The "Sources:" block appears only for a turn with at least one source. */
  function ShowsSources(t: Turn): (b: bool)
    ensures b <==> t.sources.Some? && |t.sources.value| > 0
  {
    match t.sources
    case Some(cs) => cs != []
    case None => false
  }

  /** One row of the message list: a transcript turn, or the typing indicator. */
  datatype Row = Bubble(turn: Turn) | Typing

  /** The rows of the message list: every turn in order, then the indicator while busy. */
  function Rows(messages: seq<Turn>, isLoading: bool): (rows: seq<Row>)
    ensures |rows| == |messages| + (if isLoading then 1 else 0)
    ensures forall i :: 0 <= i < |messages| ==> rows[i] == Bubble(messages[i])
    ensures Typing in rows <==> isLoading
  {
    var bubbles := seq(|messages|, i requires 0 <= i < |messages| => Bubble(messages[i]));
    assert Typing !in bubbles;
    if isLoading then bubbles + [Typing] else bubbles
  }

  /** A failed call's turn shows no sources; a successful upload's turn shows its one. */
  lemma FailureShowsNoSources(name: string, url: string, message: string,
                              upload: FetchResult<()>, chat: FetchResult<ChatBody>)
    ensures ShowsSources(PdfTurn(name, upload)) <==> Succeeded(upload)
    ensures ShowsSources(UrlTurn(url, upload)) <==> Succeeded(upload)
    ensures !Succeeded(chat) ==> !ShowsSources(SendTurns(message, chat)[1])
    ensures !ShowsSources(SendTurns(message, chat)[0])
  {
  }

  /**
   * The citation of an uploaded PDF shows the file name; that of a processed URL shows
   * the URL as a link, unless the URL is empty.
   */
  lemma UploadCitationsShown(name: string, url: string)
    ensures ShowCitation(PdfTurn(name, Response(true, Some(()))).sources.value[0]) == Plain(Some(name))
    ensures url != [] ==> ShowCitation(UrlTurn(url, Response(true, Some(()))).sources.value[0]) == Link(url)
    ensures url == [] ==> ShowCitation(UrlTurn(url, Response(true, Some(()))).sources.value[0]) == Plain(None)
  {
  }
}
