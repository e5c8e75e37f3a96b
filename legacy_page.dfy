/**
 * The older single-page client (`frontend/pages/index.js`): a message field, a
 * transcript of notes, a knowledge text area and a loading flag. Unlike the newer page
 * it has no busy guard, appends nothing for a response without a reply, and reports
 * any upload that gets a response as a success.
 */
module LegacyPage {
  import opened Wrappers
  import opened Text
  import opened Fetch

  datatype Sender = UserSender | Bot

  /** One entry of the transcript. */
  datatype Note = Note(sender: Sender, text: string)

  /** The JSON body of a `/chat` answer: `reply` may be missing. */
  datatype ReplyBody = ReplyBody(reply: Option<string>)

  /** A message as it leaves the page, with the loading flag and notes while awaited. */
  datatype Request = Request(message: string, loading: bool, notes: seq<Note>)

  const ConnectionError: string := "Error connecting to server."
  const UploadedAlert: string := "Knowledge uploaded successfully!"
  const UploadFailedAlert: string := "Failed to upload knowledge."
  const EnterKey: string := "Enter"

  /** `if (data.reply)`: a reply that is present and not the empty string. */
  predicate Truthy(reply: Option<string>) {
    reply.Some? && reply.value != []
  }

  /**
   * `res.json()` throws on a rejected fetch and on a body that does not parse; the
   * status is never looked at.
   */
  predicate Threw<T>(r: FetchResult<T>) {
    r.NetworkError? || r.json.None?
  }

  /**
   * The notes one non-blank send appends: the user's note with the text as typed, then
   * the error note when the call threw, the reply when it is truthy, and nothing else.
   */
  function SendNotes(text: string, result: FetchResult<ReplyBody>): (ns: seq<Note>)
    ensures 1 <= |ns| <= 2
    ensures ns[0] == Note(UserSender, text)
    ensures |ns| == 2 <==> Threw(result) || Truthy(result.json.value.reply)
    ensures Threw(result) ==> ns[1] == Note(Bot, ConnectionError)
    ensures !Threw(result) && Truthy(result.json.value.reply) ==> ns[1] == Note(Bot, result.json.value.reply.value)
  {
    if Threw(result) then [Note(UserSender, text), Note(Bot, ConnectionError)]
    else if Truthy(result.json.value.reply) then [Note(UserSender, text), Note(Bot, result.json.value.reply.value)]
    else [Note(UserSender, text)]
  }

  /** The number of notes from `sender`. */
  function Count(ns: seq<Note>, sender: Sender): (n: nat)
    ensures n <= |ns|
    ensures n == 0 <==> forall i :: 0 <= i < |ns| ==> ns[i].sender != sender
  {
    if ns == [] then 0
    else Count(ns[..|ns| - 1], sender) + (if ns[|ns| - 1].sender == sender then 1 else 0)
  }

  lemma {:induction false} CountAppend(a: seq<Note>, b: seq<Note>, sender: Sender)
    ensures Count(a + b, sender) == Count(a, sender) + Count(b, sender)
    decreases |b|
  {
    if b == [] {
      assert a + b == a;
    } else {
      var b' := b[..|b| - 1];
      assert (a + b)[..|a + b| - 1] == a + b';
      CountAppend(a, b', sender);
    }
  }

  /** The bot never speaks more often than the user: each send adds at most one reply. */
  predicate Balanced(ns: seq<Note>) {
    Count(ns, Bot) <= Count(ns, UserSender)
  }

  lemma SendKeepsBalance(ns: seq<Note>, text: string, result: FetchResult<ReplyBody>)
    ensures Balanced(ns) ==> Balanced(ns + SendNotes(text, result))
  {
    var sent := SendNotes(text, result);
    CountAppend(ns, sent, Bot);
    CountAppend(ns, sent, UserSender);
    CountAppend([sent[0]], sent[1..], Bot);
    CountAppend([sent[0]], sent[1..], UserSender);
    assert [sent[0]] + sent[1..] == sent;
    assert Count([sent[0]], UserSender) == 1;
    assert Count([sent[0]], Bot) == 0;
  }

  class LegacyHome {
    var input: string
    var messages: seq<Note>
    var knowledge: string
    var loading: bool
    /** The messages sent to `/chat`, in order. */
    ghost var requests: seq<Request>
    /** The knowledge texts posted to `/upload`, in order. */
    ghost var uploads: seq<string>

    constructor ()
      ensures input == [] && messages == [] && knowledge == [] && !loading
      ensures requests == [] && uploads == []
    {
      input := [];
      messages := [];
      knowledge := [];
      loading := false;
      requests := [];
      uploads := [];
    }

    /**
     * `sendMessage`: nothing on a blank input. Otherwise appends the user's note with the
     * input as typed, clears the field, sets loading and posts that same untrimmed text;
     * then appends what the outcome calls for and clears loading. A send while loading
     * is not refused.
     */
    method SendMessage(result: FetchResult<ReplyBody>)
      modifies this
      ensures JsBlank(old(input)) ==>
        input == old(input) && messages == old(messages) && loading == old(loading) && requests == old(requests)
      ensures !JsBlank(old(input)) ==> input == [] && !loading
      ensures !JsBlank(old(input)) ==> messages == old(messages) + SendNotes(old(input), result)
      ensures !JsBlank(old(input)) ==>
        requests == old(requests) + [Request(old(input), true, old(messages) + [Note(UserSender, old(input))])]
      ensures knowledge == old(knowledge) && uploads == old(uploads)
    {
      if JsBlank(input) {
        return;
      }
      var text := input;
      messages := messages + [Note(UserSender, input)];
      input := [];
      loading := true;
      requests := requests + [Request(text, loading, messages)];
      if Threw(result) {
        messages := messages + [Note(Bot, ConnectionError)];
      } else {
        var data := result.json.value;
        if Truthy(data.reply) {
          messages := messages + [Note(Bot, data.reply.value)];
        }
      }
      loading := false;
    }

    /**
     * `uploadKnowledge`: nothing on blank knowledge. Otherwise posts it; any response,
     * whatever its status, is reported as a success and clears the text area, and a
     * rejected fetch is reported as a failure and keeps it. The transcript, the field
     * and the loading flag are never touched.
     */
    method UploadKnowledge(result: FetchResult<()>) returns (alert: Option<string>)
      modifies this
      ensures JsBlank(old(knowledge)) ==>
        alert == None && knowledge == old(knowledge) && uploads == old(uploads)
      ensures !JsBlank(old(knowledge)) ==>
        && uploads == old(uploads) + [old(knowledge)]
        && (result.Response? ==> alert == Some(UploadedAlert) && knowledge == [])
        && (result.NetworkError? ==> alert == Some(UploadFailedAlert) && knowledge == old(knowledge))
      ensures input == old(input) && messages == old(messages) && loading == old(loading)
      ensures requests == old(requests)
    {
      if JsBlank(knowledge) {
        return None;
      }
      uploads := uploads + [knowledge];
      if result.Response? {
        alert := Some(UploadedAlert);
        knowledge := [];
      } else {
        alert := Some(UploadFailedAlert);
      }
    }

    /**
     * `handleKeyPress`: Enter sends, whether or not a send is in flight, so Enter on a
     * blank input changes nothing; other keys do nothing.
     */
    method HandleKeyPress(key: string, result: FetchResult<ReplyBody>)
      modifies this
      ensures key != EnterKey ==>
        input == old(input) && messages == old(messages) && loading == old(loading) && requests == old(requests)
      ensures key == EnterKey && JsBlank(old(input)) ==>
        input == old(input) && messages == old(messages) && loading == old(loading) && requests == old(requests)
      ensures key == EnterKey && !JsBlank(old(input)) ==>
        && input == []
        && messages == old(messages) + SendNotes(old(input), result)
        && requests == old(requests) + [Request(old(input), true, old(messages) + [Note(UserSender, old(input))])]
        && !loading
      ensures knowledge == old(knowledge) && uploads == old(uploads)
    {
      if key == EnterKey {
        SendMessage(result);
      }
    }
  }
}
