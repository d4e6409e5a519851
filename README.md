# Real-estate chat widget: conversation engine

This project models the conversation engine of the site's chat widget
(`src/components/AIChatbot.tsx`) in Dafny and proves what it promises.

The widget keeps three pieces of state: the transcript `messages`, the text
box `input` and the typing indicator `isTyping`. It starts with a single bot
greeting. `sendMessage` ignores input that is blank after `trim`. Otherwise it
appends the user's text immediately, clears the text box, switches the
indicator on and schedules a callback. The callback later appends one bot
reply and switches the indicator off. The reply comes from
`getRuleBasedResponse`. That function lower-cases the text and tests seven
keyword groups in a fixed order with `includes`. The first group with a
keyword in the text picks the reply, and a help text is the fallback.

Layout:

- `js_string.dfy`, module `JsString`: ASCII models of `toLowerCase`,
  `includes` and `trim`, each with a reference characterisation. Lower-casing
  is pointwise and idempotent. `includes` holds exactly when the keyword
  occurs at some position. `trim` cuts off only white space, keeps a
  contiguous slice, and leaves nothing exactly for all-white-space text.
- `responder.dfy`, module `Responder`: `getRuleBasedResponse`. The source's
  `if` chain is `Classify`, which names the branch taken with a `Topic` tag.
  `ReplyText` maps each tag to the branch's reply string, word for word, and
  `GetRuleBasedResponse` is `ReplyText(Classify(s))`. The tag is only a name
  for the branch, so the returned strings are those of the source. Beside the
  chain is an independent keyword table (`Keywords`, `GroupTopics`) and a
  reference function `TableTopic` that picks the first matching group. The
  lemmas prove that the chain equals the table. They also prove priority, the
  default case, case-insensitivity, and that the result is always one of
  eight distinct replies.
- `chatbot.dfy`, module `Chatbot`: the `Message` record and the class
  `ChatWidget`. Its fields are `messages`, `input` and `isTyping`.
  `Submit` models `sendMessage`. It returns the values the deferred callback
  closes over: the submitted text and the transcript length at submit time.
  `DeliverReply` models the callback, with those captured values as its
  argument. No timer is modelled. A ghost set `outstanding` records the
  callbacks scheduled and not yet run. `Submit` adds one per accepted
  message, never one already outstanding, and `DeliverReply` runs only an outstanding one and removes it, so
  every accepted message gets exactly one reply and no reply comes without a
  question. The class invariant `Valid` says that every outstanding reply
  answers a user message still in the transcript, and that the typing
  indicator is on only while some reply is outstanding.

Behaviour the code has that a reader might not expect, modelled as written:

- Reply ids are `length + 2`, where `length` is the transcript length captured
  at submit time. Ids equal positions, and so are unique, exactly when each
  reply lands before the next submission (`DeliverReply`'s third
  postcondition, `PositionIdsAreUnique`). Nothing in the code enforces this.
  If a second message is sent before the first reply lands, the second user
  message and the first reply share an id (`OverlappingSubmissions`; with both replies in,
  `OverlappingTranscriptIds` gives ids 1, 2, 3, 3, 4).
- The first reply to land clears the typing indicator even if a later reply is
  still outstanding (`OverlappingSubmissions`).
- The reply answers the text captured at submit time, not the cleared text box.
- The sender of assistant messages is called `bot`, as in the code.

## Model

| member | source | states |
|---|---|---|
| `JsString.LowerChar` | src/components/AIChatbot.tsx:26 | A capital letter maps to the matching small letter; any other character is kept; the result is never a capital. |
| `JsString.ToLowerCase` | src/components/AIChatbot.tsx:26 | `toLowerCase` keeps the length, lower-cases each character in place, and leaves no capital letter. |
| `JsString.ToLowerCaseIdempotent` | src/components/AIChatbot.tsx:26 | Lower-casing an already lower-cased text changes nothing. |
| `JsString.ToLowerCaseFixesLower` | src/components/AIChatbot.tsx:26 | A text without capitals is its own lower-case form. |
| `JsString.IncludesIffOccurs` | src/components/AIChatbot.tsx:28 | `includes` is true exactly when the keyword occurs in the text at some position (both directions). |
| `JsString.IncludesInside` | src/components/AIChatbot.tsx:28 | A text includes every piece it is glued together from. |
| `JsString.LowerKeepsOccurrence` | src/components/AIChatbot.tsx:26-28 | A keyword without capitals that occurs in the text still occurs, at the same place, after lower-casing. |
| `JsString.IncludesEmpty` | src/components/AIChatbot.tsx:28 | Every text includes the empty string, as in JavaScript. |
| `JsString.Trim` | src/components/AIChatbot.tsx:60 | `trim` is never longer than its input, is empty exactly when the text is all white space, and a non-empty result neither starts nor ends with white space. |
| `JsString.TrimIsSlice` | src/components/AIChatbot.tsx:60 | `trim` returns a contiguous part of the text, and everything before and after that part is white space. |
| `Responder.ReplyTextInjective` | src/components/AIChatbot.tsx:29-56 | The eight replies are pairwise different, so the reply identifies the branch taken. |
| `Responder.ResponseIsOneOfEight` | src/components/AIChatbot.tsx:25-57 | The classifier is total, and every result is one of the eight fixed replies. |
| `Responder.AnyIncludedIff` | src/components/AIChatbot.tsx:52 | A chain of `includes` tests joined by `\|\|` holds exactly when some keyword of the group occurs in the text. |
| `Responder.AnyIncludedPair` | src/components/AIChatbot.tsx:28 | A two-keyword group matches exactly when either of its two `includes` tests holds. |
| `Responder.AnyIncludedTriple` | src/components/AIChatbot.tsx:52 | A three-keyword group matches exactly when one of its three `includes` tests holds. |
| `Responder.GroupsUnfold` | src/components/AIChatbot.tsx:28-52 | Row g of the keyword table tests the same keywords as the g-th `if` condition. |
| `Responder.ChainAgreesWithTable` | src/components/AIChatbot.tsx:25-57 | The `if` chain picks what the keyword table picks for the lower-cased text: the first matching group, else the help text. |
| `Responder.TableTopicIsFirstMatch` | src/components/AIChatbot.tsx:28-54 | The table picks group h exactly when group h matches and no earlier group does. |
| `Responder.TableTopicIsHelp` | src/components/AIChatbot.tsx:56 | The table picks the help text exactly when no group matches. |
| `Responder.FirstMatchingGroupWins` | src/components/AIChatbot.tsx:28-54 | Priority: the reply is group g's exactly when g is the first group with a keyword in the lower-cased text. |
| `Responder.EarlierGroupHidesLater` | src/components/AIChatbot.tsx:28-54 | When an earlier group matches, a later group's reply is never returned, whatever else the text contains. |
| `Responder.DefaultIffNoKeyword` | src/components/AIChatbot.tsx:56 | The help text is returned exactly when no keyword of any group is a substring of the lower-cased text. |
| `Responder.EmptyGetsDefault` | src/components/AIChatbot.tsx:56 | The empty message gets the help text. |
| `Responder.CaseInsensitive` | src/components/AIChatbot.tsx:26 | Case-insensitivity: a text and its lower-cased form get the same reply. |
| `Responder.SameLowerSameReply` | src/components/AIChatbot.tsx:26 | Two texts that differ only in letter case get the same reply. |
| `Responder.VillaBeatsBudget` | src/components/AIChatbot.tsx:28-46 | Any text with "villa" and later "budget", such as "Do you have any villas under budget?", matches both the villa and the budget group and gets the villa reply, because the villa group is tested first. |
| `Responder.VillaInAnyCase` | src/components/AIChatbot.tsx:26-29 | "VILLA", "Villa" and "villa" all take the villa branch. |
| `Chatbot.IdsArePositionsIff` | src/components/AIChatbot.tsx:63-76 | The ids-are-positions invariant holds exactly when message i has id i + 1 for every i (both directions). |
| `Chatbot.PositionIdsAreUnique` | src/components/AIChatbot.tsx:63-76 | Ids that equal their 1-based positions are pairwise distinct. |
| `Chatbot.AppendUserKeepsInvariants` | src/components/AIChatbot.tsx:60-69 | Appending a non-blank user message with id length + 1 keeps ids equal to positions and keeps every user text non-blank. |
| `Chatbot.AppendIds` | src/components/AIChatbot.tsx:63-82 | After appending one message, ids are positions exactly when they were before and the new id is the new length. |
| `Chatbot.SubmissionIsAnswerable` | src/components/AIChatbot.tsx:62-74 | An accepted submission schedules a reply that is not already outstanding and appends the user message that reply will answer; the replies already outstanding still answer theirs. |
| `Chatbot.DeliveryKeepsAnswerable` | src/components/AIChatbot.tsx:74-84 | An outstanding reply answers a user message in the transcript at the captured position, with id captured length + 1 and the captured text; the replies left outstanding keep answering theirs. |
| `Chatbot.AppendBotIds` | src/components/AIChatbot.tsx:75-82 | Appending a bot message keeps ids equal to positions exactly when its id is the new length, and never adds a blank user text. |
| `Chatbot.ChatWidget.constructor` | src/components/AIChatbot.tsx:14-23 | The transcript starts as exactly one bot message with id 1 and the fixed greeting; the text box is empty, the indicator is off and no reply is outstanding. |
| `Chatbot.ChatWidget.SetInput` | src/components/AIChatbot.tsx:161 | Typing replaces the text box contents and changes nothing else; the invariant is kept. |
| `Chatbot.ChatWidget.Submit` | src/components/AIChatbot.tsx:59-74 | Blank input (empty after `trim`) changes nothing and schedules nothing. Otherwise exactly one user message is appended: id old length + 1, text the untrimmed input. Earlier messages are kept, the text box is cleared, the indicator goes on, and the reply is scheduled with the input and the old length, becoming outstanding (it was not outstanding before). The ids-are-positions invariant, the no-blank-user-text invariant and the class invariant are kept. |
| `Chatbot.ChatWidget.DeliverReply` | src/components/AIChatbot.tsx:74-84 | Runs only a reply that an accepted submission scheduled and that has not run yet, and removes it from the outstanding ones. The question it answers is in the transcript at the captured position. Appends exactly one bot message: id captured length + 2, text the classifier applied to the captured input. Everything before it is kept, the indicator goes off, and the text box is untouched. Ids stay positions exactly when nothing was appended since the submission. The invariants are kept. |
| `Chatbot.ChatWidget.HandleKeyPress` | src/components/AIChatbot.tsx:87-92 | Enter without Shift does exactly what `Submit` does: every clause of `Submit`'s contract, including the blank no-op and the kept invariants. Any other key changes nothing. |
| `Chatbot.SubmitThenReply` | src/components/AIChatbot.tsx:14-84 | On a fresh widget, an accepted question gives greeting and question with the indicator on; once the reply lands the transcript is greeting, question, the classifier's reply with ids 1, 2, 3, and the indicator is off. |
| `Chatbot.BlankSubmission` | src/components/AIChatbot.tsx:60 | Submitting "   " leaves the transcript as the greeting, keeps the text box and the indicator, and schedules no reply. |
| `Chatbot.BlankEnter` | src/components/AIChatbot.tsx:87-90 | Pressing Enter with "   " in the text box leaves the transcript as the greeting, keeps the text box and the indicator, and schedules no reply. |
| `Chatbot.SubmitTwice` | src/components/AIChatbot.tsx:59-74 | Two messages sent on a fresh widget before any reply: greeting and both questions with ids 1, 2, 3, the indicator on, and two replies outstanding that captured lengths 1 and 2. |
| `Chatbot.OverlappingSubmissions` | src/components/AIChatbot.tsx:63-84 | Two submissions before the first reply: the second user message and the first reply both get id 3, and the first reply turns the indicator off while the second is still outstanding. |
| `Chatbot.OverlappingTranscriptIds` | src/components/AIChatbot.tsx:63-84 | The same two submissions with both replies delivered in order: the ids come out 1, 2, 3, 3, 4. |

## Left out

- Timestamps (`new Date()` on every message) are clock reads used only for display, so `Message` has no timestamp field.
- The 1000 ms `setTimeout` delay and any ordering between several pending timers. The callback is the explicit step `DeliverReply`, and the caller decides when it runs and in what order, among the replies still outstanding.
- React's state-setter batching and re-rendering. `setMessages(prev => [...prev, m])` is modelled as appending to the current transcript. The callback's captured `input` and `messages.length` are the submit-time values that `Submit` returns.
- The `isOpen` toggle, all rendering, CSS classes and SVG icons, and the Send button's `disabled` flag. The flag uses the same blank test as `Submit`.
- `Chatbot.ChatWidget.HandleKeyPress`: `preventDefault` on the keyboard event is not modelled, because it only affects the browser.
- `JsString.ToLowerCase`: lower-cases ASCII letters only. JavaScript's full Unicode case mapping, which can change the length of the text, is not modelled.
- `JsString.Trim`: strips only ASCII white space (space, tab, line feed, vertical tab, form feed, carriage return). Unicode spaces and line separators, which JavaScript's `trim` also strips, are not modelled.
- `src/app/page.tsx`, `src/app/layout.tsx` and `src/components/Navigation.tsx` hold static markup and two UI flags (menu open, language label). They have no behaviour to model.
