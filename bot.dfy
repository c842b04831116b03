/**
 * The two decisions the bot object makes on its own: whether a user is an
 * administrator, and whether a group message is addressed to the bot (it
 * mentions the bot's username, or replies to one of the bot's messages).
 */
module Bot {
  import opened Wrappers
  import opened Text
  import Config

  /** `is_admin`: membership in the configured administrator ids. */
  function IsAdmin(adminIds: seq<int>, userId: int): bool {
    userId in adminIds
  }

  /** With `ADMIN_IDS` read from the environment, a user is an administrator
      exactly when some comma-separated part of the variable, stripped, spells
      the user's id in digits; so no negative id is ever an administrator. */
  lemma AdminFromEnv(raw: Option<string>, userId: int)
    ensures IsAdmin(Config.AdminIds(raw), userId) <==>
              exists i :: 0 <= i < |Config.AdminParts(raw)| && Config.NamesId(Config.AdminParts(raw)[i], userId)
    ensures userId < 0 ==> !IsAdmin(Config.AdminIds(raw), userId)
  {
    Config.AdminIdsMembers(Config.AdminParts(raw), userId);
  }

  /** A message entity: its type and the span of the text it covers. */
  datatype Entity = Entity(kind: string, offset: nat, length: nat)

  /** The parts of an incoming message the decision reads. `replyFromId` is
      the id of the sender of the message replied to, when there is such a
      message and it has a sender. */
  datatype Message = Message(text: Option<string>, entities: seq<Entity>, replyFromId: Option<int>)

  /** What `get_me` returned at start-up. */
  datatype BotInfo = BotInfo(id: int, username: string)

  /** The entity is a mention of the bot: its slice of the text, lower-cased,
      is `@` followed by the bot's username, lower-cased. */
  predicate MentionsBot(e: Entity, text: string, username: string) {
    e.kind == "mention" && Lower(Slice(text, e.offset, e.offset + e.length)) == "@" + Lower(username)
  }

  /** The `for entity in message.entities` search, returning at the first
      mention of the bot. */
  function AnyMention(entities: seq<Entity>, text: string, username: string): (found: bool)
    ensures found <==> exists i :: 0 <= i < |entities| && MentionsBot(entities[i], text, username)
  {
    if entities == [] then false
    else if MentionsBot(entities[0], text, username) then true
    else
      var rest := AnyMention(entities[1..], text, username);
      assert forall i :: 1 <= i < |entities| ==> entities[i] == entities[1..][i - 1];
      rest
  }

  /** `should_respond_in_group`. An empty text counts as missing, as it is
      falsy in Python. */
  function ShouldRespondInGroup(botInfo: Option<BotInfo>, message: Option<Message>): (respond: bool)
    ensures botInfo.None? || message.None? || message.value.text.None? || message.value.text.value == []
            ==> !respond
    ensures botInfo.Some? && message.Some? && message.value.text.Some? && message.value.text.value != [] ==>
              (respond <==>
                 (exists i :: 0 <= i < |message.value.entities|
                              && MentionsBot(message.value.entities[i], message.value.text.value, botInfo.value.username))
                 || message.value.replyFromId == Some(botInfo.value.id))
  {
    if botInfo.None? then false
    else if message.None? || message.value.text.None? || message.value.text.value == [] then false
    else
      var m := message.value;
      if AnyMention(m.entities, m.text.value, botInfo.value.username) then true
      else m.replyFromId == Some(botInfo.value.id)
  }

  /** Inserting an entity that is not a mention anywhere in the list leaves
      the search result alone. */
  lemma {:induction false} AnyMentionInsert(es: seq<Entity>, e: Entity, k: nat, text: string, username: string)
    requires e.kind != "mention" && k <= |es|
    ensures AnyMention(es[..k] + [e] + es[k..], text, username) == AnyMention(es, text, username)
  {
    var ins := es[..k] + [e] + es[k..];
    if k == 0 {
      assert ins[0] == e && ins[1..] == es;
    } else {
      assert ins[0] == es[0];
      assert ins[1..] == es[1..][..k - 1] + [e] + es[1..][k - 1..];
      AnyMentionInsert(es[1..], e, k - 1, text, username);
    }
  }

  /** Entities of any type other than `mention` do not affect the decision. */
  lemma OtherEntitiesIgnored(botInfo: Option<BotInfo>, m: Message, e: Entity, k: nat)
    requires e.kind != "mention" && k <= |m.entities|
    ensures ShouldRespondInGroup(botInfo, Some(m.(entities := m.entities[..k] + [e] + m.entities[k..])))
            == ShouldRespondInGroup(botInfo, Some(m))
  {
    if botInfo.Some? && m.text.Some? && m.text.value != [] {
      AnyMentionInsert(m.entities, e, k, m.text.value, botInfo.value.username);
    }
  }

  /** The mention test ignores case on both sides: `@MyBot` in the text
      addresses a bot named `mybot`. */
  lemma MentionIgnoresCase()
    ensures MentionsBot(Entity("mention", 3, 6), "hi @MyBot", "mybot")
  {
    assert Slice("hi @MyBot", 3, 9) == "@MyBot";
  }
}
