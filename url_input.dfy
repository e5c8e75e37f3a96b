/**
 * The URL form (`frontend/src/components/UrlInput.tsx`): the URL field, its own busy
 * flag, and the submit handler around the page's `onUrlSubmit` callback, whose
 * settlement is a parameter; and the same handler wired to the page's
 * `handleUrlSubmit`.
 */
module UrlForm {
  import opened Wrappers
  import opened Fetch
  import opened Conversation

  /** How the awaited `onUrlSubmit` call ends. */
  datatype Settlement = Resolved | Rejected

  const ProcessingLabel: string := "Processing..."
  const IdleLabel: string := "Process URL"

  class UrlInput {
    var url: string
    var isLoading: bool
    /** Each URL handed to `onUrlSubmit`, with the busy flag while it is awaited. */
    ghost var submissions: seq<(string, bool)>

    constructor ()
      ensures url == [] && !isLoading && submissions == []
    {
      url := [];
      isLoading := false;
      submissions := [];
    }

    /**
     * `handleSubmit`: an empty URL returns at once; any other URL, whitespace included,
     * is handed to `onUrlSubmit` while busy. The field is cleared only when the call
     * resolves; a rejection is caught and the URL kept. Busy is off afterwards.
     */
    method HandleSubmit(settlement: Settlement) returns (submitted: Option<string>)
      modifies this
      ensures old(url) == [] ==>
        submitted == None && url == old(url) && isLoading == old(isLoading) && submissions == old(submissions)
      ensures old(url) != [] ==>
        && submitted == Some(old(url))
        && submissions == old(submissions) + [(old(url), true)]
        && url == (if settlement == Resolved then [] else old(url))
        && !isLoading
    {
      if url == [] {
        return None;
      }
      isLoading := true;
      submitted := Some(url);
      submissions := submissions + [(url, isLoading)];
      if settlement == Resolved {
        url := [];
      }
      isLoading := false;
    }

    /**
     * `handleSubmit` with `onUrlSubmit` bound to the page's `handleUrlSubmit`, whose
     * backend outcome is `result`. That handler catches every error, so the call always
     * resolves: the field is cleared whatever the backend answers, and the page gains
     * the URL's turn.
     */
    method HandleSubmitOnPage(page: Home, result: FetchResult<()>) returns (submitted: Option<string>)
      modifies this, page
      ensures old(url) == [] ==>
        && submitted == None && url == old(url) && isLoading == old(isLoading) && submissions == old(submissions)
        && page.messages == old(page.messages) && page.isLoading == old(page.isLoading)
        && page.requests == old(page.requests)
      ensures old(url) != [] ==>
        && submitted == Some(old(url))
        && submissions == old(submissions) + [(old(url), true)]
        && url == [] && !isLoading
        && page.messages == old(page.messages) + [UrlTurn(old(url), result)]
        && page.requests == old(page.requests) + [Request(UploadUrl, old(url), true, old(page.messages))]
        && !page.isLoading
    {
      if url == [] {
        return None;
      }
      isLoading := true;
      submitted := Some(url);
      submissions := submissions + [(url, isLoading)];
      page.HandleUrlSubmit(url, result);
      url := [];
      isLoading := false;
    }
  }

  /** The submit button: whether it is disabled, and its caption. */
  datatype Button = Button(disabled: bool, caption: string)

  function SubmitButton(isLoading: bool, url: string): (b: Button)
    ensures b.disabled <==> isLoading || url == []
    ensures b.caption == ProcessingLabel <==> isLoading
    ensures b.caption == IdleLabel <==> !isLoading
  {
    Button(isLoading || url == [], if isLoading then ProcessingLabel else IdleLabel)
  }

  /**
   * Whenever the button is enabled, pressing it submits: the button's enabled state
   * and the handler's guard agree when the form is idle, and while a URL is awaited the
   * button is disabled and reads "Processing...".
   */
  lemma ButtonMatchesGuard(url: string)
    ensures !SubmitButton(false, url).disabled <==> url != []
    ensures SubmitButton(true, url) == Button(true, ProcessingLabel)
  {
  }
}
