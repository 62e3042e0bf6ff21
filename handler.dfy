/**
  The message handler end to end: decide whether to answer, fetch the recent history, build
  the conversation and the environment context, ask the language model (a parameter here), and
  deliver its answer part by part.
*/
module Handler {
  import opened Wrappers
  import opened Text
  import opened Chat
  import opened Transcript
  import opened Segmenter
  import opened Delivery
  import opened Trigger
  import opened Prompt

  /** The environment context of a channel: a direct message names the other party; a server
      channel carries its guild's name and member count when it has a guild, its name, and its
      topic when the topic is non-empty. */
  function EnvContextOf(channel: Channel): (env: EnvContext)
    ensures env.kind == DM <==> channel.DirectChannel?
    ensures env.kind == DM ==>
      env.dmWith == Some(channel.recipient.displayName + " (@" + channel.recipient.name + ")") &&
      env.serverName.None? && env.memberCount.None? && env.channelName.None? && env.channelDescription.None?
    ensures env.kind == Server ==> env.dmWith.None?
    ensures env.kind == Server ==>
      env.serverName == (if channel.guild.Some? then Some(channel.guild.value.name) else None)
    ensures env.kind == Server ==>
      env.memberCount == (if channel.guild.Some? then channel.guild.value.memberCount else None)
    ensures env.kind == Server ==> env.channelName == channel.name
    ensures env.kind == Server ==>
      env.channelDescription == (if channel.topic.Some? && channel.topic.value != [] then channel.topic else None)
    ensures env.channelDescription != Some([])
  {
    match channel
    case DirectChannel(r) =>
      EnvContext(DM, Some(r.displayName + " (@" + r.name + ")"), None, None, None, None)
    case GuildChannel(guild, name, topic) =>
      EnvContext(
        Server,
        None,
        if guild.Some? then Some(guild.value.name) else None,
        if guild.Some? then guild.value.memberCount else None,
        name,
        if topic.Some? && topic.value != [] then topic else None)
  }

  /** What answering in `channel` does, given the fetched history and the model's answer
      function: nothing when the conversation is empty or the model gives no text, otherwise the
      delivery of the split answer. */
  function ResponsePlan(
    channel: Channel, history: seq<Event>, botId: nat, showTyping: bool,
    generate: (seq<Turn>, EnvContext) -> Option<string>): seq<Action>
  {
    var conv := Conversation(history, botId);
    if conv == [] then []
    else
      match generate(conv, EnvContextOf(channel))
      case None => []
      case Some(text) => if text == [] then [] else Plan(Segments(text), history, showTyping)
  }

  /** Generating and sending a response: fetch the last `limit` messages, build the
      conversation, bail out if it is empty or the model has nothing to say, else split and
      deliver. */
  method GenerateAndSend(
    channel: Channel, log: seq<Event>, limit: nat, botId: nat, showTyping: bool,
    generate: (seq<Turn>, EnvContext) -> Option<string>) returns (actions: seq<Action>)
    ensures actions == ResponsePlan(channel, RecentHistory(log, limit), botId, showTyping, generate)
  {
    var history := RecentHistory(log, limit);
    var conv := BuildConversation(history, botId);
    if conv == [] {
      return [];
    }
    var env := EnvContextOf(channel);
    var response := generate(conv, env);
    if response.None? || response.value == [] {
      return [];
    }
    var parts := SplitResponse(response.value);
    actions := Deliver(parts, history, showTyping);
  }

  /** The message event: answer when the trigger rules say so, with the channel's log as it
      stands (the new message included). */
  method OnMessage(
    e: Event, channel: Channel, log: seq<Event>, limit: nat, botId: nat, showTyping: bool,
    generate: (seq<Turn>, EnvContext) -> Option<string>) returns (actions: seq<Action>)
    ensures Decide(e, botId, channel.DirectChannel?) == Ignore ==> actions == []
    ensures Decide(e, botId, channel.DirectChannel?).Respond? ==>
      actions == ResponsePlan(channel, RecentHistory(log, limit), botId, showTyping, generate)
  {
    var decision := Decide(e, botId, channel.DirectChannel?);
    if decision.Respond? {
      actions := GenerateAndSend(channel, log, limit, botId, showTyping, generate);
    } else {
      actions := [];
    }
  }

  /** With no history (an empty channel log or a limit of zero) nothing is sent: the model is
      not even asked. */
  lemma EmptyHistorySendsNothing(
    channel: Channel, log: seq<Event>, limit: nat, botId: nat, showTyping: bool,
    generate: (seq<Turn>, EnvContext) -> Option<string>)
    requires log == [] || limit == 0
    ensures ResponsePlan(channel, RecentHistory(log, limit), botId, showTyping, generate) == []
  {
    ConversationEmptyIff(RecentHistory(log, limit), botId);
  }

  /** A model that returns nothing, or empty text, makes the bot send nothing. */
  lemma SilentModelSendsNothing(
    channel: Channel, history: seq<Event>, botId: nat, showTyping: bool,
    generate: (seq<Turn>, EnvContext) -> Option<string>)
    requires generate(Conversation(history, botId), EnvContextOf(channel)) in {None, Some([])}
    ensures ResponsePlan(channel, history, botId, showTyping, generate) == []
  {
  }

  /** When there is history and the model answers with text, the messages sent are the
      answer's stripped non-blank lines, in order, each with its reply directive removed and its
      mentions rewritten: the blank-line splitting changes only the pacing, never the texts. */
  lemma AnswerSendsItsLines(
    channel: Channel, history: seq<Event>, botId: nat, showTyping: bool,
    generate: (seq<Turn>, EnvContext) -> Option<string>, text: string)
    requires history != [] && text != []
    requires generate(Conversation(history, botId), EnvContextOf(channel)) == Some(text)
    ensures Sent(ResponsePlan(channel, history, botId, showTyping, generate)) ==
      Rewritten(Deliverable(Split(text, "\n")), history)
  {
    ConversationEmptyIff(history, botId);
    PlanSendsDeliverable(Segments(text), history, showTyping);
    SegmentsSendLines(text);
  }

  /** The bot does nothing exactly when the history is empty, the model gives no answer, or
      the answer has no line that is not blank. */
  lemma ResponsePlanEmptyIff(
    channel: Channel, history: seq<Event>, botId: nat, showTyping: bool,
    generate: (seq<Turn>, EnvContext) -> Option<string>)
    ensures var answer := generate(Conversation(history, botId), EnvContextOf(channel));
      ResponsePlan(channel, history, botId, showTyping, generate) == [] <==>
        history == [] || answer.None? || Deliverable(Split(answer.value, "\n")) == []
  {
    ConversationEmptyIff(history, botId);
    var answer := generate(Conversation(history, botId), EnvContextOf(channel));
    if history != [] && answer.Some? {
      var text := answer.value;
      if text == [] {
        BlankLines(text);
      } else {
        PlanEmptyIff(Segments(text), history, showTyping);
        SegmentsSendLines(text);
      }
    }
  }

  /** An answer made only of whitespace and blank lines makes the bot send nothing. */
  lemma BlankAnswerDoesNothing(
    channel: Channel, history: seq<Event>, botId: nat, showTyping: bool,
    generate: (seq<Turn>, EnvContext) -> Option<string>, text: string)
    requires generate(Conversation(history, botId), EnvContextOf(channel)) == Some(text)
    requires AllSpace(text)
    ensures ResponsePlan(channel, history, botId, showTyping, generate) == []
  {
    BlankLines(text);
    ResponsePlanEmptyIff(channel, history, botId, showTyping, generate);
  }

  /** The place the system prompt names for a channel: a direct message as such, a server
      channel by its name and, when its guild has a non-empty name, the server; a server channel
      without a name only as Discord. */
  lemma LocationOfChannel(channel: Channel)
    ensures channel.DirectChannel? ==> Location(Some(EnvContextOf(channel))) == "in a DM"
    ensures channel.GuildChannel? && channel.name.Some? && channel.name.value != [] ==>
      Location(Some(EnvContextOf(channel))) ==
        "in #" + channel.name.value
          + (if channel.guild.Some? && channel.guild.value.name != [] then " on " + channel.guild.value.name else "")
    ensures channel.GuildChannel? && (channel.name.None? || channel.name.value == []) ==>
      Location(Some(EnvContextOf(channel))) == "in Discord"
  {
  }
}
