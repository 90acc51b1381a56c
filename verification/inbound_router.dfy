/** The Discord-to-Minecraft direction (`onMessageReceived`): a message is
    filtered by guild, channel and bot flag, its author is traced back
    through the link table to a player UUID and from there to a Minecraft
    name, and it becomes the lines broadcast to all players. */
module InboundRouter {
  import opened Wrappers
  import opened Identity

  /** A file attached to a Discord message. */
  datatype Attachment = Attachment(fileName: string, url: string)

  /** What the bridge reads of a received Discord message. */
  datatype Inbound = Inbound(
    fromGuild: bool,
    guildId: string,
    channelId: string,
    authorId: string,
    authorIsBot: bool,
    content: string,
    attachments: seq<Attachment>)

  /** The configured `guildId` and `channelId`. */
  datatype Config = Config(guildId: string, channelId: string)

  /** One line broadcast to the players: its plain text, and the URL it opens
      when clicked, if any. */
  datatype Broadcast = Broadcast(text: string, openUrl: Option<string>)

  /** Why a message produced nothing. */
  datatype DropReason =
    | NotFromGuild
    | OtherGuild
    | OtherChannel
    | FromBot
    | UnlinkedAuthor
    | NoCachedName

  /** The fate of a received message: dropped, broadcast as zero or more
      lines, or aborted by the null dereference of `getMinecraftName`. */
  datatype Routing = Dropped(reason: DropReason) | Broadcasts(lines: seq<Broadcast>) | Crashed

  /** The `"<name> "` prefix every broadcast line starts with. */
  function NamePrefix(name: string): string {
    "<" + name + "> "
  }

  /** The line for one attachment: the file name in brackets, opening the
      attachment's URL. */
  function AttachmentLine(name: string, a: Attachment): Broadcast {
    Broadcast(NamePrefix(name) + "[" + a.fileName + "]", Some(a.url))
  }

  /** The lines for the attachments, one each, in attachment order. */
  function AttachmentLines(name: string, attachments: seq<Attachment>): (lines: seq<Broadcast>)
    ensures |lines| == |attachments|
    ensures forall i | 0 <= i < |attachments| :: lines[i] == AttachmentLine(name, attachments[i])
    decreases |attachments|
  {
    if |attachments| == 0 then []
    else [AttachmentLine(name, attachments[0])] + AttachmentLines(name, attachments[1..])
  }

  /** Everything broadcast for a message from `name`: the attachment lines,
      then the text line unless the text is empty. */
  function Lines(name: string, msg: Inbound): (lines: seq<Broadcast>)
    ensures |lines| == |msg.attachments| + (if msg.content == "" then 0 else 1)
    ensures forall i | 0 <= i < |msg.attachments| :: lines[i] == AttachmentLine(name, msg.attachments[i])
    ensures msg.content != "" ==> lines[|lines| - 1] == Broadcast(NamePrefix(name) + msg.content, None)
  {
    var files := AttachmentLines(name, msg.attachments);
    if msg.content == "" then files else files + [Broadcast(NamePrefix(name) + msg.content, None)]
  }

  /** The filters of `onMessageReceived`, in order: the first one that fails
      names the reason for dropping the message. */
  function Filter(config: Config, msg: Inbound): (r: Option<DropReason>)
    ensures r == None <==>
      msg.fromGuild && msg.guildId == config.guildId && msg.channelId == config.channelId && !msg.authorIsBot
    ensures !msg.fromGuild ==> r == Some(NotFromGuild)
    ensures msg.authorIsBot ==> r.Some?
  {
    if !msg.fromGuild then Some(NotFromGuild)
    else if msg.guildId != config.guildId then Some(OtherGuild)
    else if msg.channelId != config.channelId then Some(OtherChannel)
    else if msg.authorIsBot then Some(FromBot)
    else None
  }

  /** `onMessageReceived`. `records` is the content of `usercache.json`.
      A message is broadcast exactly when it passes the filters, its author
      is linked, the linked UUID has a guild member, and the user cache has a
      name for it; the lines then carry the name of the last cache record for
      that UUID. A missing member aborts the handler. */
  function Route(config: Config, links: LinkTable, fetch: MemberFetch, records: seq<CacheEntry>, msg: Inbound)
    : (r: Routing)
    ensures Filter(config, msg).Some? ==> r == Dropped(Filter(config, msg).value)
    ensures Filter(config, msg).None? && PlayerIdOf(links, msg.authorId).None? ==> r == Dropped(UnlinkedAuthor)
    ensures
      var uuid := PlayerIdOf(links, msg.authorId);
      r.Broadcasts? <==>
        && Filter(config, msg).None?
        && uuid.Some?
        && MemberOf(links, fetch, uuid.value).Some?
        && exists k | 0 <= k < |records| :: records[k].uuid == uuid.value
    ensures
      var uuid := PlayerIdOf(links, msg.authorId);
      r.Crashed? <==> Filter(config, msg).None? && uuid.Some? && MemberOf(links, fetch, uuid.value).None?
    ensures
      var uuid := PlayerIdOf(links, msg.authorId);
      r.Broadcasts? ==>
        exists k | 0 <= k < |records| ::
          && records[k].uuid == uuid.value
          && LastFor(records, k)
          && r.lines == Lines(records[k].name, msg)
  {
    match Filter(config, msg)
    case Some(reason) => Dropped(reason)
    case None =>
      match PlayerIdOf(links, msg.authorId)
      case None => Dropped(UnlinkedAuthor)
      case Some(playerId) =>
        match MinecraftName(links, fetch, records, playerId)
        case NullDereference => Crashed
        case Ok(None) => Dropped(NoCachedName)
        case Ok(Some(name)) => Broadcasts(Lines(name, msg))
  }

  /** A message from a bot is never broadcast, whatever it says. */
  lemma BotNeverBroadcast(config: Config, links: LinkTable, fetch: MemberFetch, records: seq<CacheEntry>, msg: Inbound)
    requires msg.authorIsBot
    ensures !Route(config, links, fetch, records, msg).Broadcasts?
  {
  }

  /** A message from another channel of the configured guild is dropped for
      that reason, whoever wrote it and whatever it says. */
  lemma OtherChannelDropped(config: Config, links: LinkTable, fetch: MemberFetch, records: seq<CacheEntry>, msg: Inbound)
    requires msg.fromGuild && msg.guildId == config.guildId
    requires msg.channelId != config.channelId
    ensures Route(config, links, fetch, records, msg) == Dropped(OtherChannel)
  {
  }

  /** A linked author whose UUID no longer has a guild member makes
      `getMinecraftName` dereference `null`. */
  lemma MissingMemberCrashes(config: Config, links: LinkTable, fetch: MemberFetch, records: seq<CacheEntry>, msg: Inbound)
    requires Filter(config, msg).None?
    requires PlayerIdOf(links, msg.authorId).Some?
    requires fetch(msg.authorId).None?
    requires KeysDistinct(links)
    ensures Route(config, links, fetch, records, msg) == Crashed
  {
  }
}
