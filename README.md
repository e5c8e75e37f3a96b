# chatbot-fw: conversation state machine and text shaping

A Dafny model of the sequential core of chatbot-fw, a document chat assistant. It has a
React frontend and a FastAPI backend.

**Frontend.** The chat page keeps a transcript of turns and a busy flag, and has three
handlers. Each one sets the flag, calls the backend, appends the turn for the outcome and
releases the flag. The chat panel and the URL form add input guards, clearing of the
field, and what the page shows: disabled controls, citations, the Sources block and the
typing indicator. The older single-page client is modelled as its own state machine,
with its own rules.

**Backend.**
- The knowledge file: `/upload` appends to it. `/chat` reads it back with Python's
  universal newlines, splits it into paragraphs, picks the paragraph most similar to the
  question, builds the prompt and strips the generated reply.
- The text cleanup applied to scraped web pages.

Modules:
- `Wrappers` holds `Option`.
- `Fetch` holds the outcome of one `fetch`: a rejection, or a response with an ok flag and
  a body that parses or not.
- `Text` models the string built-ins the code relies on:
  - Python's `str.strip`, `str.split(sep)` and `str.splitlines`, and the join with `"\n"`;
  - JavaScript's `String.prototype.trim`;
  - the whitespace and line-break character classes of both languages, spelled out code
    point by code point.
- `ScrapeCleanup` covers `backend/utils.py`. The two scrapers repeat the same three-line
  cleanup (lines 64-69 and 100-103), so it is modelled once as `CleanText`.
- `KnowledgeBase` covers `backend/main.py`:
  - the knowledge file is a class with an `Option<string>` field, `None` while the file
    does not exist;
  - reading the file in text mode is `ReadText`: each `"\r\n"` and each lone `"\r"`
    arrives as `"\n"`;
  - the sentence embedding, the cosine similarity and the Gemini call are function
    parameters `similarity: string -> real` and `generate: string -> Option<string>`.
    `generate` gives `None` when `generate_content` raises or its response carries no
    text, so that `response.text` raises. Either failure ends the handler with an
    exception, and `/chat` answers with a server error (`ServerError`) instead of a
    reply.
  - `/upload` answers 422 without running the handler when the form's `text` is empty,
    as FastAPI does for a required form field.
- `Conversation` covers `frontend/src/app/page.tsx`:
  - the page is a class with `messages` and `isLoading`;
  - a ghost log `requests` records every backend call, together with the busy flag and
    the transcript while that call is awaited. The order of steps inside a handler is
    therefore part of each contract.
- `ChatView` covers `frontend/src/components/ChatInterface.tsx`. Its submit handler drives
  the page's `HandleSendMessage`.
- `UrlForm` covers `frontend/src/components/UrlInput.tsx`. In `HandleSubmit` its
  `onUrlSubmit` callback settles as a parameter. In `page.tsx` that callback is
  `handleUrlSubmit`, which catches every error; `HandleSubmitOnPage` wires the two
  together, and there the call always resolves.
- `LegacyPage` covers `frontend/pages/index.js`.

Behaviours of the code that the model keeps as written:
- A `/chat` response without a `reply` adds nothing to the old client's transcript
  (`frontend/pages/index.js:24-27`). It does not add a failure turn.
- The old client posts the message untrimmed (`frontend/pages/index.js:12,21`).
- The old client reports any upload that gets a response as a success, whatever its
  status (`frontend/pages/index.js:39-45`).

## Model

| member | source | states |
|---|---|---|
| Text.Strip | backend/utils.py:65 | the result is the input with a (possibly empty) run of whitespace removed from each end: it is a contiguous slice, everything cut off is whitespace, it is empty exactly when the input is all whitespace, and otherwise it neither starts nor ends with whitespace |
| Text.StripStripped | backend/utils.py:67 | stripping a string that is empty or has no whitespace at either end returns it unchanged |
| Text.JsBlankIsTrimEmpty | frontend/src/components/ChatInterface.tsx:37 | `!s.trim()` holds exactly when every character of `s` is JavaScript whitespace |
| Text.SplitOn | backend/main.py:48 | `str.split(sep)` always gives at least one piece |
| Text.Join | backend/utils.py:69 | `sep.join(xs)`: no contract of its own; `SplitOnJoin` and `SplitLinesJoin` tie it to the splits |
| Text.StripAll | backend/main.py:49 | one stripped string per input string |
| Text.StripAllAt | backend/main.py:49 | the string at each index is the input string at that index, stripped |
| Text.NonBlank | backend/main.py:49 | never more strings than the input; `NonBlankMembers` says which |
| Text.SplitOnPiecesFree | backend/main.py:48 | no piece produced by `str.split(sep)` contains the separator |
| Text.SplitOnJoin | backend/main.py:48 | joining the pieces of `str.split(sep)` with the separator gives back the input |
| Text.SplitOnFree | backend/utils.py:67 | a string that does not contain the separator splits into itself alone |
| Text.SplitOnAround | backend/main.py:48 | splitting `a + sep + b` on a one-character separator gives the pieces of `a` followed by the pieces of `b` |
| Text.SplitLines | backend/utils.py:65 | no line produced by `str.splitlines` contains a line-break character |
| Text.SplitLinesNormalized | backend/utils.py:65 | the lines joined with `"\n"` are the input with every line break (`"\r\n"` counted once) written as `"\n"`, less a final one: the lines are cut exactly at the breaks and keep every other character in order |
| Text.SplitLinesJoin | backend/utils.py:69 | splitting lines joined with `"\n"` gives them back, when none holds a line break and the last is non-empty |
| Text.NonBlankMembers | backend/utils.py:69 | keeping the non-empty strings keeps only elements of the input, all of them non-empty, and loses none of the non-empty ones |
| Text.NonBlankEmpty | backend/main.py:49 | nothing is kept exactly when every string of the list is empty |
| Text.NonBlankAppend | backend/main.py:49 | dropping the blanks from a concatenation drops them from each part, order kept |
| Text.StripAllAppend | backend/main.py:49 | stripping every element of a concatenation strips every element of each part, order kept |
| ScrapeCleanup.LinePieces | backend/utils.py:65-67 | a line always gives at least one piece, and a line whose stripped text holds no double space gives exactly that stripped text |
| ScrapeCleanup.Chunks | backend/utils.py:67 | every line gives at least one piece, so there are at least as many pieces as lines |
| ScrapeCleanup.CleanText | backend/utils.py:64-69 | the only line break in the cleaned text is `"\n"`: every other line break of the page is gone |
| ScrapeCleanup.LinePiecesArePieces | backend/utils.py:65-67 | every piece of a stripped line split on a double space and stripped again has no whitespace at either end, no line break and no double space |
| ScrapeCleanup.ChunksArePieces | backend/utils.py:65-67 | the same holds for all the pieces of all lines, in order |
| ScrapeCleanup.CleanTextLines | backend/utils.py:64-69 | the output's lines are exactly the non-blank pieces in input order, and each is non-empty with no surrounding whitespace, no line break and no double space |
| ScrapeCleanup.CleanTextNoEmptyLine | backend/utils.py:68-69 | no line of the output is empty |
| ScrapeCleanup.CleanWhitespaceOnly | backend/utils.py:64-69 | whitespace-only text cleans to the empty string |
| ScrapeCleanup.ChunksOfCleanLines | backend/utils.py:67 | lines that are already clean pass through the piece splitting unchanged |
| ScrapeCleanup.CleanTextIdempotent | backend/utils.py:100-103 | cleaning cleaned text returns it unchanged |
| KnowledgeBase.ReadText | backend/main.py:44-45 | the text read is never longer than the file, and is empty exactly when the file is |
| KnowledgeBase.ReadTextNoCr | backend/main.py:44-45 | text read in text mode holds no carriage return |
| KnowledgeBase.ReadTextPlain | backend/main.py:44-45 | a file without carriage returns is read back unchanged |
| KnowledgeBase.ReadTextTwice | backend/main.py:44-45 | reading text that has already been read changes nothing |
| KnowledgeBase.ReadTextBlank | backend/main.py:44-52 | the text read is whitespace only exactly when the file is |
| KnowledgeBase.ReadTextAppend | backend/main.py:30-45 | reading a file written in two pieces gives the two pieces read one after the other, unless the cut falls inside a `"\r\n"` |
| KnowledgeBase.ReadTextNewline | backend/main.py:33-45 | the newline written after an upload is read as one more `"\n"`, unless the upload ends in `"\r"`: then the two are read as the single `"\n"` the upload alone already ends with |
| KnowledgeBase.Paragraphs | backend/main.py:48-49 | every paragraph is non-empty, has no whitespace at either end and contains no newline |
| KnowledgeBase.ParagraphsEmpty | backend/main.py:48-52 | there is no paragraph exactly when the knowledge text is whitespace only |
| KnowledgeBase.ParagraphsAround | backend/main.py:48-49 | the paragraphs of two texts joined at a newline are those of the first followed by those of the second |
| KnowledgeBase.ParagraphsNewlineEnd | backend/main.py:33 | the newline written after each upload adds no paragraph |
| KnowledgeBase.UploadAppendsParagraphs | backend/main.py:30-49 | appending `text + "\n"` to a file that is empty or ends in a newline appends exactly the paragraphs of `text` and changes none of the existing ones |
| KnowledgeBase.UploadReadsParagraphs | backend/main.py:30-49 | once read back, a file that was empty or ended in a newline gains, through an upload, exactly the paragraphs of the uploaded text read alone, after its own unchanged ones |
| KnowledgeBase.ArgMax | backend/main.py:60 | the index is in range, holds a greatest value, and no earlier index holds that value (the first maximum) |
| KnowledgeBase.Scores | backend/main.py:55-59 | there is one score per paragraph, and the score at each index is the similarity of the paragraph at that index |
| KnowledgeBase.Prompt | backend/main.py:64-72 | the prompt starts with the fixed introduction, carries the paragraph right after it and ends with the "Answer:" heading; its length is that of its parts |
| KnowledgeBase.PromptRoundTrip | backend/main.py:64-72 | the prompt holds the chosen paragraph and the question unaltered: both can be read back from it, for any paragraph without a newline |
| KnowledgeBase.MostSimilar | backend/main.py:59-61 | holds of an index in range whose similarity is the greatest, with every earlier index strictly less similar (a predicate, no contract) |
| KnowledgeBase.MostSimilarUnique | backend/main.py:60 | exactly one index is the first of greatest similarity, so the chosen paragraph is determined |
| KnowledgeBase.ResponseTo | backend/main.py:76-80 | a server error exactly when nothing was generated; otherwise a reply that is the generated text stripped: a slice of it with only whitespace cut and none left at either end |
| KnowledgeBase.Answer | backend/main.py:55-80 | the response is the stripped generated text for the prompt built from the first paragraph of greatest similarity, or a server error when the model generated no text |
| KnowledgeBase.KnowledgeFile.constructor | backend/main.py:41 | the knowledge file starts out missing |
| KnowledgeBase.KnowledgeFile.Upload | backend/main.py:30-34 | an empty `text` is refused with 422 and the file is untouched. Otherwise the file, created when missing, grows by exactly `text + "\n"` and so ends in a newline. When the old contents are empty or end in a newline, which holds whenever only uploads write the file, the paragraphs of the file read back grow by exactly those of `text` read alone. The message is the fixed success text |
| KnowledgeBase.KnowledgeFile.Chat | backend/main.py:36-80 | "Knowledge base is empty." when the file is missing or whitespace only; otherwise the stripped generated text for a most similar paragraph of the file read back and the message, or a server error when the model generated no text |
| Conversation.PdfTurn | frontend/src/app/page.tsx:33-54 | one assistant turn. It carries sources exactly when the upload succeeded (2xx status and parseable body). On success it reads "Successfully processed PDF: " + name and cites the file; otherwise it is the fixed failure text with no sources |
| Conversation.UrlTurn | frontend/src/app/page.tsx:71-92 | one assistant turn. It carries sources exactly when the submission succeeded. On success it reads "Successfully processed URL: " + url and cites the URL; otherwise it is the fixed failure text with no sources |
| Conversation.SendTurns | frontend/src/app/page.tsx:99-132 | exactly two turns: the user's message, then an assistant turn. The assistant turn carries the response text and sources on success, and otherwise the fixed failure text with no sources |
| Conversation.Succeeded | frontend/src/app/page.tsx:33-37 | a call succeeds when it is not rejected, its status is 2xx and its body parses (a predicate, no contract) |
| Conversation.AnsweredAppend | frontend/src/app/page.tsx:38-45 | appending answered turns to a transcript where every user turn is followed by an assistant turn keeps that property |
| Conversation.AssistantTurnAnswered | frontend/src/app/page.tsx:33-92 | the single assistant turn the upload handlers append holds no unanswered user turn |
| Conversation.SendTurnsAnswered | frontend/src/app/page.tsx:98-132 | the two turns a send appends are answered: the user's message is directly followed by an assistant turn |
| Conversation.Home.constructor | frontend/src/app/page.tsx:19-20 | the transcript starts empty and the page idle |
| Conversation.Home.HandleFileUpload | frontend/src/app/page.tsx:22-58 | posts the file while busy, appends exactly the outcome's turn to the unchanged earlier transcript, is idle afterwards on every path, and keeps every user turn answered |
| Conversation.Home.HandleUrlSubmit | frontend/src/app/page.tsx:60-96 | the same for a URL |
| Conversation.Home.HandleSendMessage | frontend/src/app/page.tsx:98-136 | the user's turn is already in the transcript, and the page busy, when the message is posted; afterwards exactly the two turns are appended and the page is idle |
| ChatView.ChatInterface.constructor | frontend/src/components/ChatInterface.tsx:24 | the field starts empty |
| ChatView.ChatInterface.HandleSubmit | frontend/src/components/ChatInterface.tsx:35-42 | a blank input or a busy page changes nothing and sends nothing. Otherwise the trimmed input is handed to the page with the field already cleared, and the page appends that message's two turns |
| ChatView.SentMessageTrimmed | frontend/src/components/ChatInterface.tsx:37-39 | a message that gets past the guard is non-empty, is a slice of the input, and has no whitespace at either end |
| ChatView.ControlsFor | frontend/src/components/ChatInterface.tsx:109-113 | the text field is disabled exactly while busy; Send is disabled exactly while busy or while the input is whitespace only |
| ChatView.ShowCitation | frontend/src/components/ChatInterface.tsx:68-79 | a citation shows as a link exactly when it has a non-empty URL, and the link is that URL; otherwise it shows the file name |
| ChatView.ShowsSources | frontend/src/components/ChatInterface.tsx:62 | the Sources block appears exactly for a turn with a present, non-empty source list |
| ChatView.Rows | frontend/src/components/ChatInterface.tsx:47-98 | every turn is shown in order. The typing indicator is shown, after the turns, exactly while busy, and it is not one of the turns |
| ChatView.FailureShowsNoSources | frontend/src/components/ChatInterface.tsx:62-84 | an upload's turn shows sources exactly when the upload succeeded; a failed send's answer and every user turn show none |
| ChatView.UploadCitationsShown | frontend/src/components/ChatInterface.tsx:68-79 | an uploaded PDF's citation shows its file name, and a processed URL's citation shows the URL as a link unless the URL is empty |
| UrlForm.UrlInput.constructor | frontend/src/components/UrlInput.tsx:8-9 | the field starts empty and the form idle |
| UrlForm.UrlInput.HandleSubmit | frontend/src/components/UrlInput.tsx:11-24 | an empty URL changes nothing. Any other URL, including whitespace only, is submitted while busy. The field is cleared only if the call resolves and is kept if it rejects, and the form is idle afterwards |
| UrlForm.UrlInput.HandleSubmitOnPage | frontend/src/components/UrlInput.tsx:11-24 | wired to the page's `handleUrlSubmit`: an empty URL changes nothing on the form or the page. Any other URL is handed over while the form is busy; the page gains exactly that URL's turn and is idle afterwards; the field is always cleared and the form idle |
| UrlForm.SubmitButton | frontend/src/components/UrlInput.tsx:45-80 | the button is disabled exactly while busy or while the URL is empty; it reads "Processing..." exactly while busy and "Process URL" otherwise |
| UrlForm.ButtonMatchesGuard | frontend/src/components/UrlInput.tsx:13-47 | when idle, the button is enabled exactly when the handler would submit; while a URL is awaited it is disabled and reads "Processing..." |
| LegacyPage.Truthy | frontend/pages/index.js:24 | `if (data.reply)`: holds of a reply that is present and non-empty (a predicate, no contract) |
| LegacyPage.Threw | frontend/pages/index.js:18-23 | `res.json()` throws on a rejected fetch and on a body that does not parse, whatever the status (a predicate, no contract) |
| LegacyPage.SendNotes | frontend/pages/index.js:12-30 | the user's note with the text as typed comes first. A second note follows exactly when the call threw or the reply is truthy: the error text on a throw, otherwise the reply |
| LegacyPage.SendKeepsBalance | frontend/pages/index.js:9-34 | a send never lets the bot's notes outnumber the user's |
| LegacyPage.LegacyHome.constructor | frontend/pages/index.js:4-7 | every field starts empty and the page not loading |
| LegacyPage.LegacyHome.SendMessage | frontend/pages/index.js:9-34 | a blank input changes nothing. Otherwise the note is appended, the field cleared and loading set before the untrimmed input is posted, with no busy check. Then the outcome's notes are appended and loading is cleared |
| LegacyPage.LegacyHome.UploadKnowledge | frontend/pages/index.js:36-49 | blank knowledge changes nothing. Any response, whatever its status, alerts success and clears the text; a rejection alerts failure and keeps it. The transcript, the field and the loading flag are untouched |
| LegacyPage.LegacyHome.HandleKeyPress | frontend/pages/index.js:51-55 | Enter sends exactly as `sendMessage` does, busy or not, so Enter on a blank input changes nothing; any other key changes nothing |

## Left out

- Network calls, `alert` and `console.error`:
  - each backend call is an outcome parameter (`FetchResult`);
  - each alert is a returned value;
  - log output is not modelled.
- Markup and layout: JSX, CSS classes, bubble alignment by role, `scrollToBottom` and its
  effect, and the browser's `type="url" required` validation.
- The rendering of the old client (`frontend/pages/index.js:57-113`, including its
  "Typing..." line). Only its handlers are modelled.
- `frontend/src/components/FileUpload.tsx` is not part of this model. The upload handler
  receives the file's name.
- Concurrency: each handler runs to completion as one step. Two requests in flight at
  once, and React's batching of state updates, are not modelled. The order of steps
  inside a handler is recorded in the ghost logs.
- `backend/vector_store.py`, PDF text extraction, the requests/BeautifulSoup/Playwright
  scraping and `save_uploaded_file`: all are I/O or foreign libraries.
- The `/chat` endpoint takes sentence embeddings, cosine similarity and the Gemini model
  as parameters. A score is a real number: NaN and floating-point rounding are not
  modelled.
- `/chat` errors not modelled:
  - a request without a `message` key (a `KeyError`);
  - a file that cannot be read or decoded;
  - a failure of the embedding model: `similarity` is a total function.
- KnowledgeBase.KnowledgeFile.Chat: the server error carries no body. FastAPI's error
  response to the raised exception is not modelled.
- KnowledgeBase.KnowledgeFile.Upload: a request with no `text` field at all also gets 422
  from FastAPI; the model's `text` is always present, so only the empty field is modelled.
- `/upload` writes in text mode. On POSIX systems that writes `"\n"` as it is; the
  translation to `"\r\n"` on Windows is not modelled.
- `/upload` writes with one call. Interleaved writers and partial writes are not
  modelled.
- Conversation.Home.HandleSendMessage: a 2xx JSON body without a string `response`
  would put `undefined` in the transcript. The modelled body always carries a string.
- LegacyPage.SendNotes: a `reply` that is not a string (a number, an object) is not
  modelled. A reply is an optional string, and it is truthy when non-empty.
- Character classes cover the code points listed in `Text`. They are the ASCII and
  Unicode whitespace that Python's `str.isspace`/`str.splitlines` and JavaScript's
  `trim` recognise.
