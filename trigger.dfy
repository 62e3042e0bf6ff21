/**
  Whether an incoming message makes the bot answer. The checks run in a fixed order and the
  first one that applies decides: the bot's own messages are ignored; a mention of the bot
  triggers; a message whose reply reference resolved decides by the replied-to author alone;
  only then does a direct-message channel trigger.
*/
module Trigger {
  import opened Chat

  datatype Reason = Mentioned | ReplyToBot | DirectMessage

  datatype Decision = Ignore | Respond(reason: Reason)

  /** The reference resolved to a message written by the bot. */
  predicate RepliesToBot(r: Reference, botId: nat)
  {
    r.Resolved? && r.target.Some? && r.target.value.id == botId
  }

  /** The decision for a message `e` arriving while the bot's id is `botId`; `inDirectChannel`
      says whether the message's channel is a direct-message channel. */
  function Decide(e: Event, botId: nat, inDirectChannel: bool): (d: Decision)
    ensures e.author.id == botId ==> d == Ignore
    ensures d == Respond(Mentioned) <==> e.author.id != botId && botId in e.mentions
    ensures d == Respond(ReplyToBot) <==>
      e.author.id != botId && botId !in e.mentions && RepliesToBot(e.reference, botId)
    ensures d == Respond(DirectMessage) <==>
      e.author.id != botId && botId !in e.mentions && !e.reference.Resolved? && inDirectChannel
  {
    if e.author.id == botId then Ignore
    else if botId in e.mentions then Respond(Mentioned)
    else if e.reference.Resolved? then
      if e.reference.target.Some? && e.reference.target.value.id == botId then Respond(ReplyToBot)
      else Ignore
    else if inDirectChannel then Respond(DirectMessage)
    else Ignore
  }

  /** The bot answers exactly when the message is not its own and it is mentioned, or the
      message replies to one of its messages, or the message sits in a direct-message channel
      without a resolved reply reference. */
  lemma RespondsExactly(e: Event, botId: nat, inDirectChannel: bool)
    ensures Decide(e, botId, inDirectChannel).Respond? <==>
      e.author.id != botId &&
      (botId in e.mentions || RepliesToBot(e.reference, botId) ||
       (!e.reference.Resolved? && inDirectChannel))
  {
    var d := Decide(e, botId, inDirectChannel);
    if d.Respond? {
      assert d.reason == Mentioned || d.reason == ReplyToBot || d.reason == DirectMessage;
    }
  }

  /** In a direct-message channel, a reply to someone else's message (or to a deleted message)
      that does not mention the bot is ignored: the reply check has already decided, so the
      direct-message rule is never consulted. */
  lemma ReplyShadowsDirectMessage(e: Event, botId: nat)
    requires e.author.id != botId && botId !in e.mentions
    requires e.reference.Resolved? && !RepliesToBot(e.reference, botId)
    ensures Decide(e, botId, true) == Ignore
  {
    RespondsExactly(e, botId, true);
  }

  /** The same message answered outside a resolved reply: in a direct-message channel an
      unresolved reference falls through to the direct-message rule. */
  lemma UnresolvedFallsThrough(e: Event, botId: nat)
    requires e.author.id != botId && botId !in e.mentions && e.reference == Unresolved
    ensures Decide(e, botId, true) == Respond(DirectMessage)
    ensures Decide(e, botId, false) == Ignore
  {
    RespondsExactly(e, botId, false);
  }
}
