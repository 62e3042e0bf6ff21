# Chat bot message handling, modelled in Dafny

This project models the core of a Discord chat bot that answers in a channel with the help of a
language model. It covers:

- **Trigger decision.** When a message arrives, the bot decides whether to answer (module
  `Trigger`). It ignores its own messages. It answers when it is mentioned. A message that
  replies to a resolved message answers only when that message is the bot's. Otherwise it
  answers in a direct-message channel.
- **Transcript.** The recent channel history becomes a role-tagged conversation (module
  `Transcript`). User turns carry an attribution header `[Display (@handle), replying to …]: `.
  Consecutive turns of the same role are merged with `"\n"`.
- **Environment context.** The handler builds the environment context of the channel (module
  `Handler`). It asks the language model for an answer; the model is a function parameter.
  Nothing is sent when the conversation is empty or the model gives no text.
- **Splitting the answer.** The answer is split into parts (module `Segmenter`). It is split on
  `"\n\n"` first. A paragraph whose stripped text still holds a `"\n"` is split on `"\n"` as
  well. An answer without a blank line is split on `"\n"` alone.
- **Delivering the parts.** Each part is stripped, skipped when blank, and sent as its own
  message (modules `Directives` and `Delivery`):
  - A part after the first loop position is preceded by a pause.
  - A leading `[reply:handle]` directive makes the part a reply to that handle's most recent
    message.
  - Each `[@handle]` mention is rewritten to `<@id>`, taking the oldest author with that handle,
    or to `@handle`.
  - The part may be preceded by a typing pause.
- **System prompt.** The system prompt is the stripped profile text, the stripped base text and
  an environment header, joined with blank lines (module `Prompt`). The header gives the date
  ("Sunday, November 3rd, 1:45PM") and where the conversation happens.

How side effects are represented:

- Waiting, typing, replying and sending become a sequence of `Action`s (`Delay`, `Typing`,
  `Reply`, `Send`), with times in hundredths of a second.
- The channel log, the history limit, the typing switch, the clock reading and the prompt texts
  are parameters.

Module layout:

- `wrappers.dfy`: `Option` and `Min`.
- `text.dfy`: the Python string operations the code relies on. These are `strip`, `find`, `split`,
  `join`, `replace`, `lower`, and decimal rendering and reading of numbers.
- `chat.dfy`: the data model.
- One file each for the trigger, transcript, segmenter, directives, delivery, handler and prompt.

The loops of the source are methods proved equal to specification functions:

- `Transcript.BuildConversation`
- `Segmenter.SplitResponse`
- `Directives.FindReplyTarget`, `Directives.FindAuthorId`, `Directives.ResolveMentions`,
  with `Directives.RewriteMention` for the mention loop's body
- `Delivery.Deliver`, with `Delivery.ActOnPart` for the loop's body

The handler's steps, which contain no loop of their own, are methods too:
`Handler.GenerateAndSend` and `Handler.OnMessage`. Each is proved equal to the function
`Handler.ResponsePlan` or to nothing.

The properties the bot's behaviour rests on are proved as lemmas about those functions.

## Model

| member | source | states |
|---|---|---|
| `Transcript.ReplySuffix` | bot/handlers/message.py:62-72 | the reply part of the header is ", replying to you" for a resolved reply to the bot, ", replying to D (@N)" for another resolved target with an author, and empty for no reference, an unresolved one or a target without author |
| `Transcript.TurnOf` | bot/handlers/message.py:48-74 | a turn is the assistant's exactly when the author is the bot; an assistant turn is the text (absent text read as ""), a user turn is the attribution header followed by the text |
| `Transcript.Runs` | bot/handlers/message.py:76-80 | the partition into runs of same-role turns (what `Transcript.Merge` merges) has no empty run; the lemmas below state the rest |
| `Transcript.RunsFlatten` | bot/handlers/message.py:76-80 | the same-role runs the merge works on, laid end to end, are the turns themselves: nothing is lost or reordered |
| `Transcript.RunsSameRole` | bot/handlers/message.py:76-80 | each run holds turns of a single role |
| `Transcript.RunsAlternate` | bot/handlers/message.py:76-80 | neighbouring runs have different roles, so the runs are maximal |
| `Transcript.MergeSnoc` | bot/handlers/message.py:76-80 | one more turn extends the last merged turn with "\n" + content when the roles agree, and is appended as a new turn otherwise |
| `Transcript.BuildConversation` | bot/handlers/message.py:110-135 | the builder's loop over the history yields the merged conversation of the history's turns |
| `Transcript.ConversationAlternates` | bot/handlers/message.py:47-80 | no two adjacent turns of the built conversation share a role |
| `Transcript.ConversationIsMergedRuns` | bot/handlers/message.py:47-80 | the meaning of `Transcript.Merge`: each turn of the conversation is the "\n"-join, in order, of the contents of one maximal same-role run, with that run's role |
| `Transcript.ConversationEmptyIff` | bot/handlers/message.py:137-139 | the conversation is empty exactly when the history is, since an empty message still yields a turn |
| `Chat.RecentHistory` | bot/handlers/message.py:103-107 | the fetched history is the last min(limit, size) messages of the channel log, oldest first |
| `Segmenter.ExpandParagraph` | bot/handlers/message.py:175-179 | a paragraph contributes at least one part |
| `Segmenter.Segments` | bot/handlers/message.py:171-182 | the split always yields at least one part |
| `Segmenter.SplitResponse` | bot/handlers/message.py:171-182 | the splitter's loop, extending the list paragraph by paragraph, yields the two-tier split |
| `Segmenter.Deliverable` | bot/handlers/message.py:185-188 | the stripped non-blank parts are no more than the parts |
| `Segmenter.DeliverableClean` | bot/handlers/message.py:185-188 | every part that goes on to be sent is non-empty and already stripped |
| `Segmenter.DeliverableConcat` | bot/handlers/message.py:185-188 | the parts that go out from a concatenation of part lists are those of each list, in order |
| `Segmenter.DeliverableBlank` | bot/handlers/message.py:186-188 | whitespace-only parts send nothing |
| `Segmenter.SegmentsSendLines` | bot/handlers/message.py:171-188 | the two-tier split sends exactly the stripped non-blank lines of the answer, in order, as splitting on every "\n" would |
| `Segmenter.ParagraphsAsLines` | bot/handlers/message.py:172-180 | splitting the "\n\n"-joined paragraphs on "\n" sends what expanding the paragraphs one by one sends |
| `Segmenter.ParagraphLines` | bot/handlers/message.py:176-179 | a paragraph sends what its lines send, whether it was kept whole or split on "\n" |
| `Segmenter.SingleLineParagraph` | bot/handlers/message.py:178-179 | a paragraph kept whole sends what its lines would send |
| `Segmenter.SplitDoubleNewline` | bot/handlers/message.py:172-182 | a blank line shows up as one empty line between its two sides when splitting on "\n" |
| `Segmenter.BlankAnswerSendsNothing` | bot/handlers/message.py:171-188 | an answer made only of whitespace and blank lines sends nothing |
| `Segmenter.SingleLineResponse` | bot/handlers/message.py:181-188 | an answer without a newline is one part, and it sends the stripped answer, or nothing when it is blank |
| `Segmenter.ExampleTwoTier` | bot/handlers/message.py:171-180 | "A\n\nB\nC" is split into "A", "B", "C" |
| `Segmenter.ExampleParagraphs` | bot/handlers/message.py:172-173 | the first tier splits "A\n\nB\nC" into "A" and "B\nC" |
| `Segmenter.ExampleLines` | bot/handlers/message.py:176-177 | the paragraph "B\nC" is split into its two lines |
| `Segmenter.OneLineParagraph` | bot/handlers/message.py:178-179 | a paragraph without a newline is kept as it is |
| `Directives.LastByHandle` | bot/handlers/message.py:204-209 | the reply target is a message by the handle (case ignored) with no later message by it, and there is none only when no message is by the handle |
| `Directives.FindReplyTarget` | bot/handlers/message.py:204-209 | the newest-first search with early exit finds that most recent message |
| `Directives.FirstByHandleFrom` | bot/handlers/message.py:221-224 | the oldest message at or after a position written by the handle, with none earlier, or none at all |
| `Directives.AuthorIdByHandle` | bot/handlers/message.py:220-224 | there is no author id exactly when no message in the history is by the handle |
| `Directives.FindAuthorId` | bot/handlers/message.py:220-224 | the oldest-first search with early exit finds the oldest matching author's id |
| `Directives.ParseReply` | bot/handlers/message.py:196-202 | a directive is read exactly when the part starts with "[reply:" and holds a "]"; the handle is the stripped text between position 7 and the first "]", the text the stripped rest |
| `Directives.ReplyRoundTrip` | bot/handlers/message.py:196-202 | writing "[reply:" + handle + "]" + text and reading it back gives the handle and the text |
| `Directives.Mentions` | bot/handlers/message.py:215-216 | every handle the mention pattern captures is non-empty and holds no "]" |
| `Directives.MentionsSkip` | bot/handlers/message.py:215-216 | text without "[" in front of the rest adds no mention and hides none |
| `Directives.MentionAtHead` | bot/handlers/message.py:215-216 | a "[@h]" at the head of the text is the first mention found, and the search resumes after its "]" |
| `Directives.MentionFound` | bot/handlers/message.py:215-216 | every written "[@h]" (h non-empty, without "]") is captured: after text without "[", it is the next mention found |
| `Directives.MentionsAreWritten` | bot/handlers/message.py:215-216 | every captured handle is written in the part as "[@" + handle + "]" |
| `Directives.NoMarkerNoMentions` | bot/handlers/message.py:215-216 | a part without "[@" has no mentions |
| `Directives.MentionTextMeaning` | bot/handlers/message.py:218-231 | the meaning of `Directives.MentionText`: a mention becomes "<@id>" with the oldest matching author's non-zero id, read back from its digits, and "@" + handle when there is no such author or the id is zero |
| `Directives.MentionStepEveryOccurrence` | bot/handlers/message.py:226-231 | every occurrence of "[@handle]" is replaced by the same text, so a repeated mention resolves identically |
| `Directives.RewriteMention` | bot/handlers/message.py:218-231 | the loop body for one captured handle performs that mention's rewrite |
| `Directives.ResolveMentions` | bot/handlers/message.py:214-231 | the mention loop applies the rewrites of all captured handles, in the order they were found (`Directives.ApplyMentions`) |
| `Directives.MentionRewritten` | bot/handlers/message.py:214-231 | a part with one mention "[@h]" between texts without "[" has exactly that mention, and goes out as the texts around the mention's rewrite |
| `Directives.ReplaceOnce` | bot/handlers/message.py:227-230 | replacing a "["-led target that occurs once, between texts without "[", changes that occurrence only |
| `Directives.NoMarkerUnchanged` | bot/handlers/message.py:214-231 | a part without "[@" goes out unchanged |
| `Directives.PaddedMentionUntouched` | bot/handlers/message.py:215-230 | a mention written with padding, "[@ h ]", is captured but left as written, because the replacement looks for the stripped handle |
| `Directives.ProcessPart` | bot/handlers/message.py:196-231 | a reply target is always the most recent message by the directive's handle; a part with a directive replies to that message (and has a target whenever some message is by the handle) and carries the stripped text after "]" with its mentions rewritten; a part without one is sent to the channel with its mentions rewritten |
| `Directives.DirectivePart` | bot/handlers/message.py:196-231 | "[reply:handle]" followed by text without "[@" replies to the handle's latest message with the stripped text |
| `Directives.ReplyToAliceExample` | bot/handlers/message.py:196-209 | "[reply:alice] got it" is a reply to alice's latest message that says "got it" |
| `Delivery.PauseBefore` | bot/handlers/message.py:190-194 | there is a pause exactly from the second loop index on: one `Delay` of half a second plus a hundredth per character up to 100 characters, and exactly a second and a half from 100 characters on |
| `Delivery.TypingFor` | bot/handlers/message.py:234-239 | a typing pause is taken exactly when typing is enabled and the text is over 30 characters: a hundredth per character up to 200 characters, and exactly two seconds from 200 characters on |
| `Delivery.PartActions` | bot/handlers/message.py:186-249 | a part acts exactly when its stripped text is not blank, and then ends with its message |
| `Delivery.Deliver` | bot/handlers/message.py:185-249 | the delivery loop produces the actions of `Delivery.Plan` for the parts |
| `Delivery.ActOnPart` | bot/handlers/message.py:186-249 | the loop body for one part produces that part's actions |
| `Delivery.PlanSnoc` | bot/handlers/message.py:185-249 | the plan of one more part is the plan so far followed by that part's actions at its loop index |
| `Delivery.Rewritten` | bot/handlers/message.py:196-231 | each sent part gives exactly one rewritten text |
| `Delivery.SentConcat` | bot/handlers/message.py:185-249 | the texts sent by consecutive action sequences are those of each, in order |
| `Delivery.EmitSends` | bot/handlers/message.py:190-249 | the pauses and the typing indicator send nothing; only the part's message is sent |
| `Delivery.PartSends` | bot/handlers/message.py:185-249 | one part sends its rewritten stripped text, or nothing when it is blank |
| `Delivery.PlanSendsDeliverable` | bot/handlers/message.py:185-249 | the messages sent are, in order, the stripped non-blank parts after directive and mention rewriting |
| `Delivery.PlanBounds` | bot/handlers/message.py:190-249 | every pause lasts 0.51 to 1.5 s, every typing pause 0.31 to 2 s and only when typing is enabled, and every reply targets a message of the history |
| `Delivery.PlanEmptyIff` | bot/handlers/message.py:185-188 | the loop does nothing exactly when every part is blank |
| `Delivery.PlanNonEmptySends` | bot/handlers/message.py:185-249 | whenever the loop does something it sends a message |
| `Delivery.PlanStartsWithPauseIff` | bot/handlers/message.py:185-194 | because the loop index counts skipped blank parts, the first action is a pause exactly when the first part is blank |
| `Delivery.FirstPartLeads` | bot/handlers/message.py:185-194 | a non-blank first part acts first, without a pause |
| `Delivery.BlankFirstPauses` | bot/handlers/message.py:185-194 | after a blank first part, the first message is preceded by a pause |
| `Delivery.EmitFirst` | bot/handlers/message.py:190-194 | a sent part starts with a pause exactly when its loop index is not zero |
| `Delivery.DirectiveAloneSendsEmpty` | bot/handlers/message.py:196-202 | a part that is only a reply directive still sends a message, with empty text, since the rest is not checked for blankness again |
| `Trigger.Decide` | bot/handlers/message.py:276-299 | the bot's own messages are ignored; a mention triggers; a resolved reply triggers exactly when it targets the bot's message; otherwise a direct-message channel triggers |
| `Trigger.RespondsExactly` | bot/handlers/message.py:276-299 | the bot answers exactly when the message is not its own and it is mentioned, or replies to the bot, or is in a direct-message channel without a resolved reply |
| `Trigger.ReplyShadowsDirectMessage` | bot/handlers/message.py:290-299 | in a direct-message channel, a resolved reply to anyone but the bot is ignored: the reply branch is taken and the direct-message rule is never consulted |
| `Trigger.UnresolvedFallsThrough` | bot/handlers/message.py:290-299 | an unresolved reply without a mention triggers in a direct-message channel and nowhere else |
| `Handler.EnvContextOf` | bot/handlers/message.py:146-158 | a direct message carries only "Display (@handle)" of the recipient; a server channel carries its guild's name and member count when it has a guild (neither otherwise), the channel's name, and its topic when the topic is not empty |
| `Handler.GenerateAndSend` | bot/handlers/message.py:101-249 | answering fetches the recent history and produces the response plan for it |
| `Handler.OnMessage` | bot/handlers/message.py:273-303 | an ignored message does nothing; a triggering one produces the response plan for the channel's recent history |
| `Handler.EmptyHistorySendsNothing` | bot/handlers/message.py:137-139 | with an empty log or a zero limit nothing is done |
| `Handler.SilentModelSendsNothing` | bot/handlers/message.py:164-166 | a model that returns nothing or empty text makes the bot do nothing |
| `Handler.ResponsePlanEmptyIff` | bot/handlers/message.py:137-188 | `Handler.ResponsePlan` does nothing exactly when the history is empty, the model gives no answer, or the answer has no line that is not blank |
| `Handler.BlankAnswerDoesNothing` | bot/handlers/message.py:164-188 | an answer made only of whitespace and blank lines makes the bot do nothing |
| `Handler.AnswerSendsItsLines` | bot/handlers/message.py:160-249 | with history and a non-empty answer, the messages sent are the answer's stripped non-blank lines, rewritten, in order |
| `Handler.LocationOfChannel` | bot/prompt_manager.py:87-95 | for the context a channel gets: a direct message is "in a DM"; a server channel with a non-empty name is "in #name", followed by " on server" when its guild has a non-empty name; otherwise "in Discord" |
| `Prompt.OrdinalSuffix` | bot/prompt_manager.py:77-81 | for days 1 to 31 the suffix agrees with the English ordinal rule, written independently, in which 11, 12 and 13 take "th" |
| `Prompt.Hour12` | bot/prompt_manager.py:83 | the clock-face hour lies in 1..12 and agrees with the hour modulo 12 |
| `Prompt.Pad2` | bot/prompt_manager.py:83 | the two-digit rendering has two digits that read back as the number |
| `Prompt.LStrip` | bot/prompt_manager.py:83 | the result is a suffix of the text, does not start with the stripped character, and only that character was removed |
| `Prompt.TimeTextShape` | bot/prompt_manager.py:83 | the time reads as the clock-face hour without padding, ":", two-digit minutes, then AM or PM |
| `Prompt.TimeTextRoundTrip` | bot/prompt_manager.py:83 | reading the time text back gives the hour and minute it was made from |
| `Prompt.DateText` | bot/prompt_manager.py:72-84 | the date is the weekday, ", ", the month, the day in decimal with its English ordinal suffix, ", ", and the time as the unpadded clock-face hour, ":", two-digit minutes and AM or PM |
| `Prompt.Location` | bot/prompt_manager.py:86-95 | the place is "in a DM" exactly for a direct-message context; it starts with "in #" exactly when a server context has a non-empty channel name; it is "in Discord" exactly when there is no context or a server context without a channel name |
| `Prompt.DateExample` | bot/prompt_manager.py:72-84 | a Sunday, 3 November at 13:45 reads "Sunday, November 3rd, 1:45PM" |
| `Prompt.HeaderExample` | bot/prompt_manager.py:97-100 | the layout of `Prompt.Header`: the header of a direct message on that Sunday is "# Current Context\nIt's Sunday, November 3rd, 1:45PM. This conversation is happening in a DM." |
| `Prompt.SystemPrompt` | bot/prompt_manager.py:44-56 | the prompt is the stripped profile, a blank line, the stripped base text, a blank line, and the header |
| `Text.StripShape` | bot/prompt_manager.py:31 | stripping leaves nothing exactly when the text is whitespace only, and otherwise a text that neither starts nor ends with whitespace |
| `Text.SplitJoin` | bot/handlers/message.py:173 | joining the pieces of a split with the separator gives back the text |
| `Text.ReplaceIsSplitJoin` | bot/handlers/message.py:227-230 | replacing every occurrence is splitting on the target and joining with the replacement |
| `Text.DecimalRoundTrip` | bot/handlers/message.py:227 | a number's decimal digits read back as the number |

## Left out

- Fetching the channel history, sleeping and sending or replying are not performed. They are
  recorded as actions, and the channel log is a parameter.
- The typing indicator itself is not recorded. When typing is enabled it is shown for every
  sent part, but only the typing pause taken for parts over 30 characters appears, as a
  `Typing` action.
- The language-model client (bot/llm.py) is not part of this model. It is a function parameter
  from the conversation and the environment context to an optional answer.
- bot/config.py, bot/client.py and bot/handlers/commands.py are not part of this model. The
  history limit and the typing switch are parameters.
- The unused `_null_context` class is not modelled.
- Reading the prompt files is not modelled. The profile and base texts are parameters, and only
  their stripping is modelled.
- The clock is not modelled. The weekday, month, day, hour and minute are a `Moment` parameter.
  Weekday and month names are those of the C locale.
- Floating-point delays become whole hundredths of a second. The code's `len/100` values are
  exact in hundredths, so the comparisons with 0.3, 1.5 and 2.0 keep their outcome.
- Exceptions and logging are not modelled. The source catches every error around the whole
  handler and the whole delivery loop, so a failed send ends the remaining parts. The model
  has no failures, so that case does not arise.
- Refused sends are not modelled either. Sending empty text (a part that is only a reply
  directive) is recorded as a send; the chat service would refuse it.
- Text handling is ASCII only. `strip` treats as whitespace the ASCII characters for which
  `str.isspace()` holds: space, tab, newline, vertical tab, form feed, carriage return and the
  four separators `\x1c`-`\x1f`. `lower` folds only `A`-`Z`.
- Handler.EnvContextOf: a guild whose member count is unknown carries no member count, the same
  as a channel without a guild. The source stores the `None` value under the key.
- The mention pattern's capture of handles is modelled for the pattern the source uses. It is
  not a general regular-expression engine.
- The trigger chain's reply branch is an `elif`: a resolved reply to anyone but the bot ends
  the chain, even in a direct-message channel. The model keeps this.
- Environment contexts are built only by the handler, which always passes one. A missing
  context (`None`) is modelled in `Prompt.Location`, which then gives "in Discord".
