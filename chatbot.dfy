/** The chat widget's conversation state: the transcript, the text box and the
    typing indicator, changed by `sendMessage` and by the reply callback it
    defers. The deferred callback is an explicit second step, `DeliverReply`,
    taking the values the callback closes over. */
module Chatbot {
  import opened JsString
  import opened Responder

  datatype Sender = User | Bot

  /** A transcript entry; its creation time is not modelled. */
  datatype Message = Message(id: int, sender: Sender, text: string)

  datatype Option<T> = None | Some(value: T)

  /** What the deferred reply callback captures when `sendMessage` runs: the
      submitted text and the transcript length at that moment. */
  datatype PendingReply = PendingReply(input: string, length: nat)

  const Greeting: string :=
    "Hello! I'm your real estate assistant. How can I help you find the perfect property today?"

  /** `!input.trim()`: the text box holds only white space, or nothing. */
  predicate IsBlank(s: string) {
    Trim(s) == []
  }

  /** Every message's id is its 1-based position in the transcript, checked
      from the last message back. */
  ghost predicate IdsArePositions(messages: seq<Message>)
    decreases |messages|
  {
    messages == [] ||
    (IdsArePositions(messages[..|messages| - 1]) && messages[|messages| - 1].id == |messages|)
  }

  /** `IdsArePositions` says that message `i` has id `i + 1`, for every `i`. */
  lemma {:induction false} IdsArePositionsIff(messages: seq<Message>)
    ensures IdsArePositions(messages) <==> forall i :: 0 <= i < |messages| ==> messages[i].id == i + 1
    decreases |messages|
  {
    if messages != [] {
      var earlier := messages[..|messages| - 1];
      IdsArePositionsIff(earlier);
      assert forall i :: 0 <= i < |earlier| ==> earlier[i] == messages[i];
    }
  }

  /** Ids that are positions are unique, as the rendered list's keys must be. */
  lemma PositionIdsAreUnique(messages: seq<Message>)
    requires IdsArePositions(messages)
    ensures forall i, j :: 0 <= i < j < |messages| ==> messages[i].id != messages[j].id
  {
    IdsArePositionsIff(messages);
  }

  /** After one more message, ids are positions exactly when they were before
      and the new message's id is the new length. */
  lemma AppendIds(messages: seq<Message>, m: Message)
    ensures IdsArePositions(messages + [m]) <==> IdsArePositions(messages) && m.id == |messages| + 1
  {
    assert (messages + [m])[..|messages|] == messages;
  }

  /** No user message is blank. */
  ghost predicate UserTextsNotBlank(messages: seq<Message>) {
    forall i :: 0 <= i < |messages| && messages[i].sender == User ==> !IsBlank(messages[i].text)
  }

  /** Appending a non-blank user message with id `length + 1` keeps both invariants. */
  lemma AppendUserKeepsInvariants(messages: seq<Message>, text: string)
    requires !IsBlank(text)
    ensures IdsArePositions(messages) ==> IdsArePositions(messages + [Message(|messages| + 1, User, text)])
    ensures UserTextsNotBlank(messages) ==> UserTextsNotBlank(messages + [Message(|messages| + 1, User, text)])
  {
    var extended := messages + [Message(|messages| + 1, User, text)];
    AppendIds(messages, Message(|messages| + 1, User, text));
    assert extended[|messages|].text == text;
  }

  /** Appending a bot message keeps the user texts non-blank, and keeps ids
      equal to positions exactly when its id is the new length. */
  lemma AppendBotIds(messages: seq<Message>, id: int, text: string)
    ensures IdsArePositions(messages) ==>
              (IdsArePositions(messages + [Message(id, Bot, text)]) <==> id == |messages| + 1)
    ensures UserTextsNotBlank(messages) ==> UserTextsNotBlank(messages + [Message(id, Bot, text)])
  {
    AppendIds(messages, Message(id, Bot, text));
  }

  /** Every reply in `outstanding` answers the user message at the position it
      captured, which carries the id and the text the submission gave it. */
  ghost predicate RepliesAnswerQuestions(messages: seq<Message>, outstanding: set<PendingReply>) {
    forall p :: p in outstanding ==>
      p.length < |messages| && messages[p.length] == Message(p.length + 1, User, p.input)
  }

  /** An accepted submission schedules a reply that is not outstanding yet, and
      appends the question that reply answers. */
  lemma SubmissionIsAnswerable(messages: seq<Message>, outstanding: set<PendingReply>, text: string)
    requires RepliesAnswerQuestions(messages, outstanding)
    ensures PendingReply(text, |messages|) !in outstanding
    ensures RepliesAnswerQuestions(messages + [Message(|messages| + 1, User, text)],
                                   outstanding + {PendingReply(text, |messages|)})
  {
    var extended := messages + [Message(|messages| + 1, User, text)];
    forall p | p in outstanding + {PendingReply(text, |messages|)}
      ensures p.length < |extended| && extended[p.length] == Message(p.length + 1, User, p.input)
    {
      if p in outstanding {
        assert extended[p.length] == messages[p.length];
      }
    }
  }

  /** Delivering an outstanding reply answers a question in the transcript, and
      the replies still outstanding keep answering theirs. */
  lemma DeliveryKeepsAnswerable(messages: seq<Message>, outstanding: set<PendingReply>,
                                pending: PendingReply, reply: Message)
    requires RepliesAnswerQuestions(messages, outstanding)
    requires pending in outstanding
    ensures pending.length < |messages| &&
            messages[pending.length] == Message(pending.length + 1, User, pending.input)
    ensures RepliesAnswerQuestions(messages + [reply], outstanding - {pending})
  {
    var extended := messages + [reply];
    forall p | p in outstanding - {pending}
      ensures p.length < |extended| && extended[p.length] == Message(p.length + 1, User, p.input)
    {
      assert p in outstanding;
      assert extended[p.length] == messages[p.length];
    }
  }

  class ChatWidget {
    var messages: seq<Message>
    var input: string
    var isTyping: bool
    /** The reply callbacks scheduled by accepted submissions that have not run yet. */
    ghost var outstanding: set<PendingReply>

    /** Every outstanding reply answers a user message still in the transcript,
        at the position and with the id it was given, and the typing indicator
        is on only while some reply is outstanding. */
    ghost predicate Valid()
      reads this
    {
      (isTyping ==> outstanding != {}) && RepliesAnswerQuestions(messages, outstanding)
    }

    /** The widget opens with the bot's greeting as its only message,
        an empty text box, no typing indicator and no reply outstanding. */
    constructor ()
      ensures messages == [Message(1, Bot, Greeting)]
      ensures input == [] && !isTyping && outstanding == {}
      ensures IdsArePositions(messages) && UserTextsNotBlank(messages)
      ensures Valid()
    {
      messages := [Message(1, Bot, Greeting)];
      input := [];
      isTyping := false;
      outstanding := {};
    }

    /** The text box's `onChange`: replaces the pending input. */
    method SetInput(value: string)
      requires Valid()
      modifies this
      ensures input == value
      ensures messages == old(messages) && isTyping == old(isTyping) && outstanding == old(outstanding)
      ensures Valid()
    {
      input := value;
    }

    /** `sendMessage`. Blank input changes nothing and schedules nothing.
        Otherwise the user's text, untrimmed, is appended with id `length + 1`,
        the text box is cleared, the typing indicator is set, and the reply
        is scheduled with the submitted text and the old length. */
    method Submit() returns (scheduled: Option<PendingReply>)
      requires Valid()
      modifies this
      ensures scheduled.None? <==> IsBlank(old(input))
      ensures scheduled.None? ==>
                messages == old(messages) && input == old(input) && isTyping == old(isTyping) &&
                outstanding == old(outstanding)
      ensures scheduled.Some? ==>
                scheduled.value == PendingReply(old(input), |old(messages)|) &&
                messages == old(messages) + [Message(|old(messages)| + 1, User, old(input))] &&
                input == [] && isTyping &&
                scheduled.value !in old(outstanding) &&
                outstanding == old(outstanding) + {scheduled.value}
      ensures IdsArePositions(old(messages)) ==> IdsArePositions(messages)
      ensures UserTextsNotBlank(old(messages)) ==> UserTextsNotBlank(messages)
      ensures Valid()
    {
      if IsBlank(input) {
        return None;
      }
      var userMessage := Message(|messages| + 1, User, input);
      AppendUserKeepsInvariants(messages, input);
      SubmissionIsAnswerable(messages, outstanding, input);
      scheduled := Some(PendingReply(input, |messages|));
      messages := messages + [userMessage];
      outstanding := outstanding + {scheduled.value};
      input := [];
      isTyping := true;
    }

    /** The deferred callback of an accepted submission, run once: appends one
        bot message answering the text captured at submission, with id
        `length + 2` for the length captured then, and clears the typing
        indicator. The question it answers is still in the transcript. The ids
        stay positions exactly when nothing else was appended since that
        submission. */
    method DeliverReply(pending: PendingReply)
      requires Valid()
      requires pending in outstanding
      modifies this
      ensures pending.length < |old(messages)| &&
              old(messages)[pending.length] == Message(pending.length + 1, User, pending.input)
      ensures messages == old(messages) + [Message(pending.length + 2, Bot, GetRuleBasedResponse(pending.input))]
      ensures input == old(input) && !isTyping
      ensures outstanding == old(outstanding) - {pending}
      ensures IdsArePositions(old(messages)) ==>
                (IdsArePositions(messages) <==> |old(messages)| == pending.length + 1)
      ensures UserTextsNotBlank(old(messages)) ==> UserTextsNotBlank(messages)
      ensures Valid()
    {
      var botResponse := Message(pending.length + 2, Bot, GetRuleBasedResponse(pending.input));
      AppendBotIds(messages, botResponse.id, botResponse.text);
      DeliveryKeepsAnswerable(messages, outstanding, pending, botResponse);
      messages := messages + [botResponse];
      outstanding := outstanding - {pending};
      isTyping := false;
    }

    /** `handleKeyPress`: Enter without Shift does what `sendMessage` does;
        other keys change nothing. */
    method HandleKeyPress(key: string, shiftKey: bool) returns (scheduled: Option<PendingReply>)
      requires Valid()
      modifies this
      ensures key != "Enter" || shiftKey ==>
                scheduled.None? && messages == old(messages) && input == old(input) &&
                isTyping == old(isTyping) && outstanding == old(outstanding)
      ensures key == "Enter" && !shiftKey ==> (scheduled.None? <==> IsBlank(old(input)))
      ensures scheduled.None? ==>
                messages == old(messages) && input == old(input) && isTyping == old(isTyping) &&
                outstanding == old(outstanding)
      ensures scheduled.Some? ==>
                scheduled.value == PendingReply(old(input), |old(messages)|) &&
                messages == old(messages) + [Message(|old(messages)| + 1, User, old(input))] &&
                input == [] && isTyping &&
                scheduled.value !in old(outstanding) &&
                outstanding == old(outstanding) + {scheduled.value}
      ensures IdsArePositions(old(messages)) ==> IdsArePositions(messages)
      ensures UserTextsNotBlank(old(messages)) ==> UserTextsNotBlank(messages)
      ensures Valid()
    {
      if key == "Enter" && !shiftKey {
        scheduled := Submit();
      } else {
        scheduled := None;
      }
    }
  }

  /** One question on a fresh widget, answered before anything else is sent:
      the transcript becomes greeting, question, reply with ids 1, 2, 3, and
      the typing indicator is on only while the reply is outstanding. */
  method SubmitThenReply(question: string)
    returns (whilePending: seq<Message>, typingWhilePending: bool, transcript: seq<Message>, typingAfter: bool)
    requires !IsBlank(question)
    ensures whilePending == [Message(1, Bot, Greeting), Message(2, User, question)]
    ensures typingWhilePending
    ensures transcript == whilePending + [Message(3, Bot, GetRuleBasedResponse(question))]
    ensures !typingAfter
  {
    var chat := new ChatWidget();
    chat.SetInput(question);
    var pending := chat.Submit();
    whilePending, typingWhilePending := chat.messages, chat.isTyping;
    chat.DeliverReply(pending.value);
    transcript, typingAfter := chat.messages, chat.isTyping;
  }

  /** Submitting only spaces on a fresh widget leaves the greeting alone,
      keeps the spaces in the text box and schedules no reply. */
  method BlankSubmission() returns (transcript: seq<Message>, text: string, typing: bool, replied: bool)
    ensures transcript == [Message(1, Bot, Greeting)]
    ensures text == "   " && !typing && !replied
  {
    var chat := new ChatWidget();
    chat.SetInput("   ");
    var scheduled := chat.Submit();
    transcript, text, typing, replied := chat.messages, chat.input, chat.isTyping, scheduled.Some?;
  }

  /** Pressing Enter with only spaces in the text box on a fresh widget
      changes nothing and schedules no reply. */
  method BlankEnter() returns (transcript: seq<Message>, text: string, typing: bool, replied: bool)
    ensures transcript == [Message(1, Bot, Greeting)]
    ensures text == "   " && !typing && !replied
  {
    var chat := new ChatWidget();
    chat.SetInput("   ");
    var scheduled := chat.HandleKeyPress("Enter", false);
    transcript, text, typing, replied := chat.messages, chat.input, chat.isTyping, scheduled.Some?;
  }

  /** A fresh widget on which `first` and then `second` are sent before any
      reply lands: both questions are in, both replies are outstanding. */
  method SubmitTwice(first: string, second: string)
    returns (chat: ChatWidget, p1: PendingReply, p2: PendingReply)
    requires !IsBlank(first) && !IsBlank(second)
    ensures fresh(chat) && chat.Valid()
    ensures chat.messages == [Message(1, Bot, Greeting), Message(2, User, first), Message(3, User, second)]
    ensures p1 == PendingReply(first, 1) && p2 == PendingReply(second, 2)
    ensures chat.outstanding == {p1, p2} && chat.isTyping
  {
    chat := new ChatWidget();
    chat.SetInput(first);
    var s1 := chat.Submit();
    chat.SetInput(second);
    var s2 := chat.Submit();
    p1, p2 := s1.value, s2.value;
  }

  /** Two submissions before the first reply lands. The second user message
      and the first bot reply both get id 3, and the first reply clears the
      typing indicator while the second reply is still outstanding. */
  method OverlappingSubmissions(first: string, second: string)
    returns (secondUserId: int, firstReplyId: int, typingWhileSecondPending: bool)
    requires !IsBlank(first) && !IsBlank(second)
    ensures secondUserId == firstReplyId == 3
    ensures !typingWhileSecondPending
  {
    var chat, p1, p2 := SubmitTwice(first, second);
    secondUserId := chat.messages[2].id;
    chat.DeliverReply(p1);
    firstReplyId := chat.messages[3].id;
    typingWhileSecondPending := chat.isTyping;
  }

  /** The same two submissions, with both replies delivered in order: the
      transcript's ids come out 1, 2, 3, 3, 4. */
  method OverlappingTranscriptIds(first: string, second: string) returns (ids: seq<int>)
    requires !IsBlank(first) && !IsBlank(second)
    ensures ids == [1, 2, 3, 3, 4]
  {
    var chat, p1, p2 := SubmitTwice(first, second);
    chat.DeliverReply(p1);
    assert p2 in chat.outstanding;
    chat.DeliverReply(p2);
    var m := chat.messages;
    ids := [m[0].id, m[1].id, m[2].id, m[3].id, m[4].id];
  }
}
