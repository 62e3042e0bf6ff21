/**
  The chat gateway's data as the bot reads it: authors, message events with their optional
  reply reference, the channel a message arrives in, and the role-tagged turns handed to the
  language model.
*/
module Chat {
  import opened Wrappers

  /** A message author: numeric id, handle (`name`) and `display_name`. */
  datatype Author = Author(id: nat, name: string, displayName: string)

  /** What `message.reference` holds: no reference, a reference the gateway could not resolve
      (deleted or uncached source), or a resolved message, which has an author unless it is a
      deleted-message placeholder. */
  datatype Reference =
    | NoReference
    | Unresolved
    | Resolved(target: Option<Author>)

  /** One chat message: its author, its text (absent text is `None`), the ids of the users it
      mentions, and its reply reference. */
  datatype Event = Event(author: Author, content: Option<string>, mentions: seq<nat>, reference: Reference)

  /** A guild (server) as the environment context reads it. */
  datatype Guild = Guild(name: string, memberCount: Option<nat>)

  /** The conversation a message arrives in: a direct-message channel with its recipient, or a
      guild text channel or thread, whose guild, name and topic may be missing. */
  datatype Channel =
    | DirectChannel(recipient: Author)
    | GuildChannel(guild: Option<Guild>, name: Option<string>, topic: Option<string>)

  datatype Role = User | Assistant

  /** A conversation turn in the shape the language-model client takes: role and content. */
  datatype Turn = Turn(role: Role, content: string)

  /** The environment context handed to the language-model client with the conversation:
      whether the conversation is a direct message or in a server, with the details known about
      it. A `None` field is a key the context does not carry. */
  datatype ChannelKind = DM | Server

  datatype EnvContext = EnvContext(
    kind: ChannelKind,
    dmWith: Option<string>,
    serverName: Option<string>,
    memberCount: Option<nat>,
    channelName: Option<string>,
    channelDescription: Option<string>)

  /** `msg.content or ""`. */
  function ContentText(e: Event): string
  {
    match e.content
    case Some(c) => c
    case None => ""
  }

  /** The last `limit` events of a channel's log in chronological order: what fetching the
      channel history newest-first with that limit and reversing it yields. */
  function RecentHistory(log: seq<Event>, limit: nat): (history: seq<Event>)
    ensures |history| == Min(limit, |log|)
    ensures history == log[|log| - |history|..]
  {
    if limit < |log| then log[|log| - limit..] else log
  }
}
