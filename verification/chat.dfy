/**
 * The chat screen: its list of messages, the text being typed and the
 * `loading` flag, with the two phases of `sendMessage` and the choice
 * `renderMessage` makes for each record.
 *
 * Each functional `setMessages(prev => ...)` update is one assignment to
 * `messages`, in the order the source issues them.
 */
module Chat {
  import opened Wrappers
  import opened JsString
  import Markdown
  import Segmenter

  /** The text of the record that stands for a reply still on its way. */
  const Sentinel: string := "__LOADING__"

  const WelcomeText: string := "Hi! I am Gemini. Ask me anything. I can help you with math and physics!"
  const NoResponse: string := "No response."
  const UnknownError: string := "Unknown error."
  const MissingKey: string := "Gemini API key not found."

  /** The suffix of the placeholder's id. */
  const LoadingSuffix: string := "_loading"

  datatype Sender = User | Bot | Error

  /** `{ id, sender, text }`. */
  datatype Message = Message(id: string, sender: Sender, text: string)

  /** The record the list starts with. */
  const Welcome: Message := Message("0", Bot, WelcomeText)

  /**
   * What the request to the model came back with: on success, the text at
   * `res.data?.candidates?.[0]?.content?.parts?.[0]?.text`; on failure, the
   * message at `err?.response?.data?.error?.message` and `err.message`.
   */
  datatype Reply =
    | Answered(text: Option<string>)
    | Rejected(apiMessage: Option<string>, message: Option<string>)

  // ---------------------------------------------------------------- ids

  /** The id of a user record: `Date.now().toString()`. */
  function UserId(now: nat): (id: string)
    ensures id != [] && forall i :: 0 <= i < |id| ==> '0' <= id[i] <= '9'
  {
    Decimal(now)
  }

  /** The placeholder's id: `Date.now().toString() + '_loading'`. */
  function LoadingId(now: nat): (id: string)
    ensures IsLoadingId(id) && id[..|id| - |LoadingSuffix|] == UserId(now)
  {
    Decimal(now) + LoadingSuffix
  }

  /** The id of a reply: `Date.now().toString() + '_bot'`. */
  function BotId(now: nat): (id: string)
    ensures !IsLoadingId(id) && id != UserId(now) && id != LoadingId(now)
  {
    var id := Decimal(now) + "_bot";
    assert id[|id| - 1] == 't' && LoadingId(now)[|LoadingId(now)| - 1] == 'g';
    assert |id| > |UserId(now)|;
    id
  }

  /** The id of an error record: `Date.now().toString() + '_err'`. */
  function ErrId(now: nat): (id: string)
    ensures !IsLoadingId(id) && id != UserId(now) && id != LoadingId(now) && id != BotId(now)
  {
    var id := Decimal(now) + "_err";
    assert id[|id| - 1] == 'r' && LoadingId(now)[|LoadingId(now)| - 1] == 'g' && BotId(now)[|BotId(now)| - 1] == 't';
    assert |id| > |UserId(now)|;
    id
  }

  /** Ids of the placeholder's shape. */
  predicate IsLoadingId(id: string) {
    |id| >= |LoadingSuffix| && id[|id| - |LoadingSuffix|..] == LoadingSuffix
  }

  /** Only the placeholder's id has the placeholder's shape. */
  lemma IdShapes(now: nat)
    ensures IsLoadingId(LoadingId(now))
    ensures !IsLoadingId(UserId(now)) && !IsLoadingId(BotId(now)) && !IsLoadingId(ErrId(now))
    ensures !IsLoadingId(Welcome.id)
    ensures UserId(now) != LoadingId(now)
  {
    var d := Decimal(now);
    if |d| >= 8 {
      assert d[|d| - 8] != '_';
      assert d[|d| - 8..][0] == d[|d| - 8];
    }
  }

  // ---------------------------------------------------------------- records

  /** JavaScript's `x || fallback` on an optional string: `undefined` and `""` are falsy. */
  function Or(x: Option<string>, fallback: string): (r: string)
    ensures fallback != [] ==> r != []
    ensures x.Some? && x.value != [] ==> r == x.value
    ensures !(x.Some? && x.value != []) ==> r == fallback
  {
    if x.Some? && x.value != [] then x.value else fallback
  }

  /**
   * The one record completion appends. Without a key the `try` block throws
   * `new Error('Gemini API key not found.')` before any request, which the
   * `catch` block reports like any other failure.
   */
  function Outcome(keyPresent: bool, reply: Reply, now: nat): (m: Message)
    ensures m.sender == Bot <==> keyPresent && reply.Answered?
    ensures m.sender != User
    ensures m.sender == Error ==> m.id == ErrId(now) && m.text != []
    ensures m.sender == Bot ==> m.id == BotId(now)
    ensures keyPresent && reply.Answered? && reply.text.Some? && reply.text.value != [] ==>
              m.text == Markdown.CleanMarkdown(reply.text.value)
    ensures !keyPresent ==> m == Message(ErrId(now), Error, MissingKey)
    ensures keyPresent && reply.Rejected? ==>
              m.text == UnknownError
              || (reply.apiMessage.Some? && m.text == reply.apiMessage.value)
              || (reply.message.Some? && m.text == reply.message.value)
  {
    if keyPresent && reply.Answered? then
      Message(BotId(now), Bot, Markdown.CleanMarkdown(Or(reply.text, NoResponse)))
    else
      var failure := if keyPresent then reply else Rejected(None, Some(MissingKey));
      Message(ErrId(now), Error, Or(failure.apiMessage, Or(failure.message, UnknownError)))
  }

  /** An answer without text, or with empty text, shows as `No response.`. */
  lemma OutcomeNoResponse(reply: Reply, now: nat)
    requires reply == Answered(None) || reply == Answered(Some([]))
    ensures Outcome(true, reply, now) == Message(BotId(now), Bot, NoResponse)
  {
    assert forall k :: !Markdown.DelimAt(NoResponse, k);
  }

  /** An answer with text is shown as that text with its `**` matches replaced. */
  lemma OutcomeAnswered(t: string, now: nat)
    requires t != []
    ensures Outcome(true, Answered(Some(t)), now) == Message(BotId(now), Bot, Markdown.CleanMarkdown(t))
  {
  }

  /** A failure's text: the API's message first, then the exception's, then `Unknown error.`. */
  lemma OutcomeErrorText(api: Option<string>, message: Option<string>, now: nat)
    ensures var m := Outcome(true, Rejected(api, message), now);
            && (api.Some? && api.value != [] ==> m.text == api.value)
            && (!(api.Some? && api.value != []) && message.Some? && message.value != [] ==> m.text == message.value)
            && (!(api.Some? && api.value != []) && !(message.Some? && message.value != []) ==> m.text == UnknownError)
  {
  }

  // ---------------------------------------------------------------- the list

  /** `prev.filter(m => m.id !== id)`. */
  function RemoveId(xs: seq<Message>, id: string): (r: seq<Message>)
    ensures |r| <= |xs|
    ensures forall i :: 0 <= i < |r| ==> r[i].id != id
  {
    if xs == [] then []
    else if xs[0].id == id then RemoveId(xs[1..], id)
    else [xs[0]] + RemoveId(xs[1..], id)
  }

  /** The filter keeps every occurrence of the other records, in their order, and nothing else. */
  lemma {:induction false} RemoveIdKeeps(xs: seq<Message>, id: string)
    ensures Segmenter.IsSubsequence(RemoveId(xs, id), xs)
    ensures forall m :: m in xs && m.id != id ==> m in RemoveId(xs, id)
    ensures forall m :: multiset(RemoveId(xs, id))[m] == if m.id == id then 0 else multiset(xs)[m]
  {
    if xs != [] {
      RemoveIdKeeps(xs[1..], id);
      var rest := RemoveId(xs[1..], id);
      assert forall m :: m in xs ==> m == xs[0] || m in xs[1..];
      assert xs == [xs[0]] + xs[1..];
      if xs[0].id == id {
        assert rest == [] || rest[0] != xs[0];
      } else {
        assert ([xs[0]] + rest)[1..] == rest;
      }
    }
  }

  /** Filtering out an id no record has changes nothing. */
  lemma {:induction false} RemoveIdAbsent(xs: seq<Message>, id: string)
    requires forall i :: 0 <= i < |xs| ==> xs[i].id != id
    ensures RemoveId(xs, id) == xs
  {
    if xs != [] {
      RemoveIdAbsent(xs[1..], id);
      assert xs == [xs[0]] + xs[1..];
    }
  }

  /** When only the last record has the id, filtering drops exactly that record. */
  lemma {:induction false} RemoveIdLast(xs: seq<Message>, id: string)
    requires |xs| >= 1 && xs[|xs| - 1].id == id
    requires forall i :: 0 <= i < |xs| - 1 ==> xs[i].id != id
    ensures RemoveId(xs, id) == xs[..|xs| - 1]
  {
    if |xs| == 1 {
      assert xs[1..] == [];
    } else {
      var tail := xs[1..];
      RemoveIdLast(tail, id);
      assert RemoveId(xs, id) == [xs[0]] + RemoveId(tail, id);
      assert tail[..|tail| - 1] == xs[1..|xs| - 1];
      assert xs[..|xs| - 1] == [xs[0]] + xs[1..|xs| - 1];
    }
  }

  /** The typing placeholder appended on dispatch. */
  predicate IsPlaceholder(m: Message) {
    IsLoadingId(m.id) && m.sender == Bot && m.text == Sentinel
  }

  /**
   * The states the screen can be in: the welcome record first; while a reply
   * is awaited, the placeholder last; and no other record with an id of the
   * placeholder's shape.
   */
  predicate WellFormed(messages: seq<Message>, loading: bool)
    ensures WellFormed(messages, loading) ==>
              forall i :: 0 <= i < |messages| && IsPlaceholder(messages[i]) ==> loading && i == |messages| - 1
  {
    && |messages| >= 1 && messages[0] == Welcome
    && (loading ==> |messages| >= 2 && IsPlaceholder(messages[|messages| - 1]))
    && forall i :: 0 <= i < |messages| && IsLoadingId(messages[i].id) ==> loading && i == |messages| - 1
  }

  /** Dispatch from an idle state: the user record, then the placeholder. */
  lemma DispatchKeepsWellFormed(messages: seq<Message>, text: string, userTime: nat, loadingTime: nat)
    requires WellFormed(messages, false)
    ensures WellFormed(messages + [Message(UserId(userTime), User, text), Message(LoadingId(loadingTime), Bot, Sentinel)], true)
  {
    IdShapes(userTime);
    IdShapes(loadingTime);
  }

  /** While loading, the placeholder's id is on no other record, so the filter removes exactly the placeholder. */
  lemma PlaceholderRemoved(messages: seq<Message>)
    requires WellFormed(messages, true)
    ensures RemoveId(messages, messages[|messages| - 1].id) == messages[..|messages| - 1]
  {
    var id := messages[|messages| - 1].id;
    assert IsLoadingId(id);
    assert forall i :: 0 <= i < |messages| - 1 ==> messages[i].id != id;
    RemoveIdLast(messages, id);
  }

  /** Completion of the awaited reply: the placeholder gives way to the outcome. */
  lemma CompleteKeepsWellFormed(messages: seq<Message>, record: Message)
    requires WellFormed(messages, true)
    requires !IsLoadingId(record.id)
    ensures WellFormed(messages[..|messages| - 1] + [record], false)
  {
    var n := |messages|;
    var next := messages[..n - 1] + [record];
    assert next[0] == messages[0];
    forall i | 0 <= i < n
      ensures !IsLoadingId(next[i].id)
    {
      if i < n - 1 {
        assert next[i] == messages[i];
      } else {
        assert next[i] == record;
      }
    }
  }

  /** The outcome record never has the placeholder's shape of id. */
  lemma OutcomeNotLoading(keyPresent: bool, reply: Reply, now: nat)
    ensures !IsLoadingId(Outcome(keyPresent, reply, now).id)
  {
    IdShapes(now);
  }

  // ---------------------------------------------------------------- the screen

  class ChatScreen {
    var messages: seq<Message>
    var input: string
    var loading: bool

    predicate Valid()
      reads this
    {
      WellFormed(messages, loading)
    }

    /** The initial state of the three `useState` hooks. */
    constructor ()
      ensures messages == [Welcome] && input == [] && !loading
      ensures Valid()
    {
      messages := [Welcome];
      input := [];
      loading := false;
    }

    /** `onChangeText={setInput}`. */
    method SetInput(text: string)
      modifies this
      ensures input == text
      ensures messages == old(messages) && loading == old(loading)
    {
      input := text;
    }

    /**
     * The first phase of `sendMessage`: the guard, the user record holding the
     * input as typed, the cleared input, the flag, and the placeholder.
     */
    method Dispatch(userTime: nat, loadingTime: nat) returns (sent: bool, loadingId: string)
      modifies this
      ensures sent <==> Trim(old(input)) != [] && !old(loading)
      ensures !sent ==> messages == old(messages) && input == old(input) && loading == old(loading)
      ensures sent ==> && loadingId == LoadingId(loadingTime)
                       && messages == old(messages) + [Message(UserId(userTime), User, old(input)),
                                                       Message(loadingId, Bot, Sentinel)]
                       && input == [] && loading
      ensures old(Valid()) ==> Valid()
    {
      if Trim(input) == [] || loading {
        return false, [];
      }
      ghost var before := messages;
      messages := messages + [Message(UserId(userTime), User, input)];
      input := [];
      loading := true;
      loadingId := LoadingId(loadingTime);
      messages := messages + [Message(loadingId, Bot, Sentinel)];
      sent := true;
      assert messages == before + [Message(UserId(userTime), User, old(input)), Message(loadingId, Bot, Sentinel)];
      if old(Valid()) {
        DispatchKeepsWellFormed(before, old(input), userTime, loadingTime);
      }
    }

    /**
     * The second phase of `sendMessage`, on success or failure alike: the
     * records with the placeholder's id go, one outcome record comes, and
     * `finally` clears the flag.
     */
    method Complete(loadingId: string, keyPresent: bool, reply: Reply, now: nat)
      modifies this
      ensures messages == RemoveId(old(messages), loadingId) + [Outcome(keyPresent, reply, now)]
      ensures input == old(input) && !loading
      ensures old(Valid()) && old(loading) && loadingId == old(messages[|messages| - 1].id) ==>
                && messages == old(messages[..|messages| - 1]) + [Outcome(keyPresent, reply, now)]
                && Valid()
    {
      var record := Outcome(keyPresent, reply, now);
      ghost var before := messages;
      messages := RemoveId(messages, loadingId);
      messages := messages + [record];
      loading := false;
      if old(Valid()) && old(loading) && loadingId == before[|before| - 1].id {
        OutcomeNotLoading(keyPresent, reply, now);
        PlaceholderRemoved(before);
        CompleteKeepsWellFormed(before, record);
      }
    }

    /**
     * `sendMessage` from start to end, with the reply arriving before anything
     * else happens: the placeholder is added and removed again, so the list
     * grows by the user record and the outcome.
     */
    method SendMessage(userTime: nat, loadingTime: nat, keyPresent: bool, reply: Reply, replyTime: nat)
      returns (sent: bool)
      modifies this
      ensures sent <==> Trim(old(input)) != [] && !old(loading)
      ensures !sent ==> messages == old(messages) && input == old(input) && loading == old(loading)
      ensures sent && old(Valid()) ==>
                && messages == old(messages) + [Message(UserId(userTime), User, old(input)),
                                                Outcome(keyPresent, reply, replyTime)]
                && input == [] && !loading
      ensures old(Valid()) ==> Valid()
    {
      var loadingId;
      sent, loadingId := Dispatch(userTime, loadingTime);
      if sent {
        ghost var dispatched := messages;
        Complete(loadingId, keyPresent, reply, replyTime);
        if old(Valid()) {
          assert dispatched[..|dispatched| - 1] == old(messages) + [Message(UserId(userTime), User, old(input))];
        }
      }
    }
  }

  // ---------------------------------------------------------------- rendering

  /** What a record is drawn as: the typing indicator, or a bubble of segments. */
  datatype View = Typing | Bubble(sender: Sender, blocks: seq<Segmenter.Segment>)

  /** `renderMessage` as written: the indicator for any record whose text is the sentinel. */
  function RenderByText(m: Message): (v: View)
    ensures v.Typing? <==> m.text == Sentinel
    ensures v.Bubble? ==> v.sender == m.sender && v.blocks == Segmenter.ParseContent(m.text)
  {
    if m.text == Sentinel then Typing else Bubble(m.sender, Segmenter.ParseContent(m.text))
  }

  /**
   * A user who sends the sentinel's text gets a record that, once the reply
   * is in, still shows as the indicator: the test on the text cannot tell it
   * from the placeholder.
   */
  lemma SentinelCollision()
    ensures var messages := [Welcome, Message(UserId(1), User, Sentinel), Outcome(true, Answered(Some("Hi")), 2)];
            && WellFormed(messages, false)
            && RenderByText(messages[1]) == Typing
  {
    IdShapes(1);
    IdShapes(2);
    assert !IsLoadingId(Welcome.id);
  }

  /** `renderMessage` keyed on the placeholder itself: the indicator for records with its id shape. */
  function RenderMessage(m: Message): (v: View)
    ensures v.Typing? <==> IsPlaceholder(m)
    ensures v.Bubble? ==> v.sender == m.sender && v.blocks == Segmenter.ParseContent(m.text)
  {
    if IsPlaceholder(m) then Typing else Bubble(m.sender, Segmenter.ParseContent(m.text))
  }

  /** `messages.map(renderMessage)`, with the corrected `RenderMessage`. */
  function RenderAll(messages: seq<Message>): (views: seq<View>)
    ensures |views| == |messages|
    ensures forall i :: 0 <= i < |messages| ==> views[i] == RenderMessage(messages[i])
  {
    seq(|messages|, i requires 0 <= i < |messages| => RenderMessage(messages[i]))
  }

  /** In every state of the screen, the indicator is shown exactly for the awaited reply. */
  lemma TypingExactlyWhileLoading(messages: seq<Message>, loading: bool)
    requires WellFormed(messages, loading)
    ensures forall i :: 0 <= i < |messages| ==> (RenderAll(messages)[i].Typing? <==> loading && i == |messages| - 1)
  {
    var views := RenderAll(messages);
    forall i | 0 <= i < |messages|
      ensures views[i].Typing? <==> loading && i == |messages| - 1
    {
      PlaceholderOnlyLast(messages, loading, i);
      assert views[i] == RenderMessage(messages[i]);
    }
  }

  /** In every state of the screen, only the last record can be the placeholder, and only while loading. */
  lemma PlaceholderOnlyLast(messages: seq<Message>, loading: bool, i: nat)
    requires WellFormed(messages, loading) && i < |messages|
    ensures IsPlaceholder(messages[i]) <==> loading && i == |messages| - 1
  {
  }

  /** With the corrected `RenderMessage`, whatever a user types, their record is drawn as a bubble of its segments. */
  lemma UserRecordsAreBubbles(m: Message)
    requires m.sender == User
    ensures RenderMessage(m) == Bubble(User, Segmenter.ParseContent(m.text))
  {
  }

  /** The reply `The answer is $$4$$.` to `2+2` is drawn as text, math and text. */
  lemma AnswerRendered(now: nat)
    ensures var m := Outcome(true, Answered(Some("The answer is $$4$$.")), now);
            && m.text == "The answer is $$4$$."
            && RenderMessage(m) == Bubble(Bot, [Segmenter.Segment(Segmenter.Text, "The answer is"),
                                                Segmenter.Segment(Segmenter.Math, "4"),
                                                Segmenter.Segment(Segmenter.Text, ".")])
  {
    var s := "The answer is $$4$$.";
    assert forall k :: !Markdown.DelimAt(s, k);
    IdShapes(now);
    Segmenter.ParseAnswer();
  }

  /**
   * A whole conversation: from the initial screen, the user
   * sends `2+2` and the model answers `The answer is $$4$$.`; the placeholder
   * is gone and the answer is drawn as text, math and text.
   */
  method AskTwoPlusTwo(userTime: nat, loadingTime: nat, replyTime: nat) returns (screen: ChatScreen)
    ensures screen.messages == [Welcome, Message(UserId(userTime), User, "2+2"),
                                Message(BotId(replyTime), Bot, "The answer is $$4$$.")]
    ensures screen.input == [] && !screen.loading
    ensures RenderAll(screen.messages)[2]
         == Bubble(Bot, [Segmenter.Segment(Segmenter.Text, "The answer is"),
                         Segmenter.Segment(Segmenter.Math, "4"),
                         Segmenter.Segment(Segmenter.Text, ".")])
  {
    screen := new ChatScreen();
    screen.SetInput("2+2");
    TrimTrimmed("2+2");
    var reply := Answered(Some("The answer is $$4$$."));
    var sent := screen.SendMessage(userTime, loadingTime, true, reply, replyTime);
    AnswerRendered(replyTime);
  }
}
