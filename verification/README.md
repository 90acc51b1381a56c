# discord-mc-bridge in Dafny

This project models the core of a Minecraft server plugin. The plugin bridges the game chat with one Discord channel, in both directions.

- **Minecraft to Discord** (`ChatListener`). Each game event becomes one webhook message or none:
  - Chat is forwarded as it is. A chat message that is a Xaero's Minimap waypoint token (`xaero-waypoint:name:initials:x:y:z:colour:visibility:yaw:dimension`) becomes an embed with a Chunkbase seed-map link.
  - Joins, leaves and advancements are announced by "System", with the player's Discord mention when one is available: joins and leaves mention the guild member when it can be retrieved, advancements mention the Discord id whenever the link table has one. Otherwise the player's name is used.
  - Death messages are translated from `en_us.json`. Their `%n$s` placeholders are replaced by Discord mentions or by the plain text of the argument. Colour escapes are then stripped.
- **Discord to Minecraft** (`DiscordListener.onMessageReceived`):
  - A message is kept only if it comes from the configured guild and channel and its author is not a bot.
  - The author is traced back through the link table `discord.json` to a player UUID. The player name is then read from the server's `usercache.json`.
  - Every attachment is broadcast to the players as one line. The text is then broadcast as one more line, unless it is empty.

Modules, one file each:

- `Wrappers` (`wrappers.dfy`): `Option` and `Result`. `Result.NullDereference` stands for a Java `NullPointerException`.
- `JavaStrings` (`java_strings.dfy`): the Java string operations the core relies on.
  - `String.split(":")`, which drops trailing empty fields.
  - `String.replace`: literal, left to right, without overlap.
  - `contains`, `startsWith`, and decimal rendering of integers.
- `Components` (`components.dfy`): game text components, `getTranslationKey` and `extractUUID`.
- `Identity` (`identity.dfy`):
  - the link table and its forward and reverse lookups;
  - the guild member of a UUID;
  - `getAvatarUrl`;
  - the user cache fold of `loadUserCache`;
  - `getMinecraftName`.
- `Waypoints` (`waypoints.dfy`): waypoint token parsing, dimension normalisation and the seed-map URL.
- `ColourCodes` (`colour_codes.dfy`): the colour-escape removal of `onPlayerDeath`.
- `EventTranslator` (`event_translator.dfy`): the event handlers of `ChatListener`, with joining and leaving as one handler.
- `InboundRouter` (`inbound_router.dfy`): `onMessageReceived`.

Collaborators the code calls but does not define are parameters of the model:

- plain-text serialisation of a component (`Serialiser`);
- retrieval of a guild member by Discord id over the network (`MemberFetch`);
- the world seed;
- the avatar URL of the bot's own account.

Behaviour worth knowing:

- **Colour stripping is not idempotent.** The regular expression runs once, so an escape split by another escape survives one pass. This is `ColourCodes.StripNotIdempotent`.
- **Attachments are broadcast whenever a message has them, even when it also has text.** The text line follows them unless the text is empty.
- **A linked author without a guild member makes `getMinecraftName` dereference `null`.** It does not fall back to the player name. The model reports this as `Routing.Crashed`.

## Model

All source paths are under `src/main/java/com/garfield/chatintegration/`.

| member | source | states |
|---|---|---|
| Components.TranslationKey | src/main/java/com/garfield/chatintegration/ChatListener.java:81-86 | a component has a translation key exactly when it is translatable, and the key is its own |
| Components.EntityUuid | src/main/java/com/garfield/chatintegration/ChatListener.java:211-220 | an entity UUID is found exactly for a literal text component whose hover shows an entity, and it is that entity's UUID |
| JavaStrings.Split | src/main/java/com/garfield/chatintegration/ChatListener.java:96 | `split(":")` gives the one-element array of the message when there is no colon; otherwise it gives the colon-separated fields with trailing empty fields dropped, and the last kept field is non-empty |
| JavaStrings.SplitJoinBack | src/main/java/com/garfield/chatintegration/ChatListener.java:96 | joining two or more colon-free fields with colons and splitting again gives back the fields, provided the last field is not empty |
| JavaStrings.Replace | src/main/java/com/garfield/chatintegration/ChatListener.java:200-205 | a string that starts with a non-empty target gives a result that starts with the replacement |
| JavaStrings.ReplaceWithoutTarget | src/main/java/com/garfield/chatintegration/ChatListener.java:200-205 | a string in which a non-empty target does not occur is returned unchanged |
| JavaStrings.ReplaceSkipsFreePrefix | src/main/java/com/garfield/chatintegration/ChatListener.java:200-205 | a prefix without the target's first character passes through replacement untouched |
| JavaStrings.ReplaceJoined | src/main/java/com/garfield/chatintegration/ChatListener.java:200-205 | for a target whose first character does not recur in it (every placeholder `%n$s` is one), replacing it in pieces joined by it, none of which holds it, gives the same pieces joined by the replacement: every occurrence is replaced and nothing else changes |
| Waypoints.Parse | src/main/java/com/garfield/chatintegration/ChatListener.java:96-111 | a message yields a waypoint exactly when its split has at least ten fields, and the waypoint holds split fields 1 (name), 3, 4, 5 (x, y, z), 6 (colour) and 9 (dimension), whatever follows field 9 |
| Waypoints.FewSeparatorsRejected | src/main/java/com/garfield/chatintegration/ChatListener.java:96-97 | a message with fewer than nine colons never yields a waypoint |
| Waypoints.ParseToken | src/main/java/com/garfield/chatintegration/ChatListener.java:95-111 | every token the mod writes for a waypoint starts with the recognised prefix and parses back to the same waypoint (name, x, y, z, colour, dimension) |
| Waypoints.EmptyDimensionRejected | src/main/java/com/garfield/chatintegration/ChatListener.java:96-97 | a token with nine colons but an empty dimension field is rejected, because `split` drops that field |
| Waypoints.HomeTokenParses | src/main/java/com/garfield/chatintegration/ChatListener.java:96-111 | the token for "Home" at 100/64/200 in dimension "overworld,abc" parses to that waypoint, and its dimension is shown as "Overworld" |
| Waypoints.NormaliseDimension | src/main/java/com/garfield/chatintegration/ChatListener.java:99-105 | "overworld" beats "nether", which beats "end"; the first one contained gives its capitalised label; a dimension containing none of them is shown unchanged |
| Waypoints.NormaliseDimensionIdempotent | src/main/java/com/garfield/chatintegration/ChatListener.java:99-105 | normalising an already normalised dimension changes nothing |
| ColourCodes.Strip | src/main/java/com/garfield/chatintegration/ChatListener.java:187 | stripping never lengthens the text and removes characters in threes; text without the introducer is unchanged; an escape at the very start shortens it by at least three characters |
| ColourCodes.StripAround | src/main/java/com/garfield/chatintegration/ChatListener.java:187 | an escape (introducer and code character) after text without the introducer's first character is removed, the text before it is kept, and the scan resumes after it |
| ColourCodes.StripKeepsFalseEscape | src/main/java/com/garfield/chatintegration/ChatListener.java:187 | an introducer followed by a character outside the code class `[0-9a-fA-FklmnoK-LOrR]` is kept, and the scan resumes at that character |
| ColourCodes.StripChangesExactlyEscapes | src/main/java/com/garfield/chatintegration/ChatListener.java:187 | stripping leaves a string unchanged exactly when no escape starts anywhere in it |
| ColourCodes.StripKeepsPlainPrefix | src/main/java/com/garfield/chatintegration/ChatListener.java:187 | text before the first introducer character is kept verbatim, whatever follows it |
| ColourCodes.StripNotIdempotent | src/main/java/com/garfield/chatintegration/ChatListener.java:187 | there is a string whose stripped form still holds an escape, and a second pass removes it |
| Identity.DiscordIdOf | src/main/java/com/garfield/chatintegration/DiscordListener.java:215-219 | a Discord id is found exactly for a linked UUID, and it is the id the table pairs with that UUID |
| Identity.PlayerIdOf | src/main/java/com/garfield/chatintegration/DiscordListener.java:152-159 | a UUID is found exactly when some entry has the Discord id, and it is the UUID of the first such entry in table order |
| Identity.ReverseThenForward | src/main/java/com/garfield/chatintegration/DiscordListener.java:152-159 | the UUID found by the reverse lookup maps forward to the same Discord id |
| Identity.ForwardThenReverse | src/main/java/com/garfield/chatintegration/DiscordListener.java:152-159 | every Discord id a UUID links to is found by the reverse lookup, and the UUID found links back to that id |
| Identity.MemberOf | src/main/java/com/garfield/chatintegration/DiscordListener.java:201-213 | an unlinked UUID has no member; a linked one has whatever retrieval of its Discord id gives |
| Identity.AvatarUrl | src/main/java/com/garfield/chatintegration/DiscordListener.java:221-231 | there is a URL exactly when there is a member: the CDN URL of the member's own avatar, else the default avatar |
| Identity.AvatarUrlIdentifiesMember | src/main/java/com/garfield/chatintegration/DiscordListener.java:225 | two members with the same CDN avatar URL have the same member id and avatar id |
| Identity.UserCache | src/main/java/com/garfield/chatintegration/DiscordListener.java:124-129 | the cache holds exactly the UUIDs of the records, each mapped to the name of its last record |
| Identity.MinecraftName | src/main/java/com/garfield/chatintegration/DiscordListener.java:192-199 | the lookup crashes exactly when there is no member; otherwise it finds a name exactly when a cache record has the UUID, and that name comes from the last such record |
| InboundRouter.AttachmentLines | src/main/java/com/garfield/chatintegration/DiscordListener.java:172-182 | there is one line per attachment, in attachment order, showing the file name and opening its URL |
| InboundRouter.Lines | src/main/java/com/garfield/chatintegration/DiscordListener.java:172-185 | the attachment lines come first, then one text line unless the text is empty |
| InboundRouter.Filter | src/main/java/com/garfield/chatintegration/DiscordListener.java:139-149 | a message passes exactly when it comes from the configured guild and channel and not from a bot |
| InboundRouter.Route | src/main/java/com/garfield/chatintegration/DiscordListener.java:137-190 | a message is broadcast exactly when it passes the filters, its author is linked, the member is found and the cache has a name; the lines then carry the name of the last cache record; the handler crashes exactly when the member is missing |
| InboundRouter.MissingMemberCrashes | src/main/java/com/garfield/chatintegration/DiscordListener.java:192-199 | a linked author whose member cannot be retrieved crashes the handler, given a link table without repeated UUIDs |
| InboundRouter.BotNeverBroadcast | src/main/java/com/garfield/chatintegration/DiscordListener.java:147-149 | a bot's message is never broadcast |
| InboundRouter.OtherChannelDropped | src/main/java/com/garfield/chatintegration/DiscordListener.java:143-145 | a message from another channel of the configured guild is dropped for that reason |
| EventTranslator.Translate | src/main/java/com/garfield/chatintegration/ChatListener.java:181 | a key in the table gives its translation; any other key gives the fallback |
| EventTranslator.ColourOf | src/main/java/com/garfield/chatintegration/ChatListener.java:119 | a named colour in the table gives its value; any other name gives red |
| EventTranslator.ChatSender | src/main/java/com/garfield/chatintegration/ChatListener.java:92-94 | chat is sent under the member's name and avatar when a member is found, else under the player name and the head render; there is always an avatar URL |
| EventTranslator.OnPlayerChat | src/main/java/com/garfield/chatintegration/ChatListener.java:89-129 | non-waypoint chat is forwarded verbatim; a prefixed message whose split has fewer than ten fields gives "Invalid waypoint format"; otherwise the embed built from split fields 1, 3, 4, 5, 6 and 9: title "Waypoint", the bold name, the fields Dimension (normalised), Seed Map (link for seed, dimension, x, z) and Co-ordinates in that order, the table colour (red when missing) and the message as footer; the sender is always the chat sender |
| EventTranslator.SharedWaypointEmbed | src/main/java/com/garfield/chatintegration/ChatListener.java:95-122 | a token the mod writes becomes the full embed of its waypoint: title, bold name, fields Dimension, Seed Map and Co-ordinates in that order, table colour, and the token as footer |
| EventTranslator.OnPresence | src/main/java/com/garfield/chatintegration/ChatListener.java:131-145 | "System" announces a join or a leave: the member's mention when a member is found, else the player's name, followed by " has joined the game" or " has left the game" |
| EventTranslator.AdvancementSubject | src/main/java/com/garfield/chatintegration/ChatListener.java:161-162 | a linked player is mentioned by the linked Discord id; an unlinked one is named |
| EventTranslator.JoinAndAdvancementSubjects | src/main/java/com/garfield/chatintegration/ChatListener.java:161-162 | joins and advancements name a player alike when the member is found; a linked player without a retrievable member is named on joining but mentioned for an advancement |
| EventTranslator.OnPlayerAdvancement | src/main/java/com/garfield/chatintegration/ChatListener.java:147-169 | there is an announcement exactly when a display exists and both its title and description carry keys the table translates; it shows the subject, bold title and description line |
| EventTranslator.ArgumentText | src/main/java/com/garfield/chatintegration/ChatListener.java:195-205 | an argument showing a linked entity becomes that entity's Discord mention; any other argument becomes its plain text |
| EventTranslator.UnusedPlaceholdersKept | src/main/java/com/garfield/chatintegration/ChatListener.java:191-209 | a template holding none of the placeholders `%1$s` to `%n$s` for its n arguments comes back unchanged, whatever the arguments' texts |
| EventTranslator.ReplaceNextPlaceholder | src/main/java/com/garfield/chatintegration/ChatListener.java:194-206 | for literal and argument texts without `%`, one round of the loop replaces exactly the slots of the next argument by its text and leaves every other slot and all literal text as they are |
| EventTranslator.PlaceholdersFilled | src/main/java/com/garfield/chatintegration/ChatListener.java:191-209 | for a template whose literal text and argument texts hold no `%`: every placeholder `%n$s` with 1 <= n <= the argument count, wherever and however often it occurs, becomes the text of argument n (a mention or plain text); placeholders above the count, even next to replaced ones, and all literal text are kept |
| EventTranslator.OnPlayerDeath | src/main/java/com/garfield/chatintegration/ChatListener.java:171-189 | there is a message exactly when there is a death message; "System" sends the stripped serialised text, or for a translatable message the stripped translation (the key when untranslated) with placeholders replaced |
| EventTranslator.DeathFromTemplate | src/main/java/com/garfield/chatintegration/ChatListener.java:171-189 | a death message translated to such a template (literal and argument texts without `%`) is sent by "System" as the fully substituted template with escapes stripped |

## Left out

- The JDA client setup, the webhook transport and `sendMessageToWebhook` (DiscordListener.java:50-96, 239-261) are left out. They are I/O: each handler's result is the message it hands to the webhook.
- Reading `discord.json`, `usercache.json`, `colours.json`, `en_us.json` and the configuration from disk or the class path is left out. It is I/O, so the tables are inputs. Their I/O failures (which leave an empty table) are covered because an empty table is a valid input. Configuration values are taken to be present.
- Hex colour decoding (`Color.decode`) is left out. Colours are given already decoded.
- Component rendering, colour styling and hover or click styling of the broadcast lines are left out. Plain-text serialisation belongs to a library outside the core and is a parameter. Broadcast lines keep only their text and the URL they open. The hover showing the member's effective name at DiscordListener.java:170 is not modelled.
- The world seed lookup at ChatListener.java:106 is left out. The seed is a parameter, so the null dereference when no world "world" exists is not modelled.
- Only a JSON string is modelled as a value in the link table and the user cache. Other JSON kinds (for which `getAsString` throws or converts) are left out.
- Thread scheduling of the asynchronous chat event is left out. It is concurrency.
- `ChatIntegration.java`, the plugin entry point, is not part of this model.
- EventTranslator.OnPlayerChat does not follow the embed message through the webhook. At ChatListener.java:122 the embed is passed to `sendMessageToWebhook`, but DiscordListener.java:239 declares that method only for a text message, so no embed overload exists in the source. The model stops at the embed.
- The webhook sends nothing when no webhook client could be set up (DiscordListener.java:240). Each handler's result is the message it would hand over.
- Identity.MemberOf takes member retrieval as a parameter. It does not model the user and guild lookups, or which network exceptions make retrieval fail.
- Replace: its own contract states only what happens with an occurrence at the front; JavaStrings.ReplaceWithoutTarget states the case without one. The full behaviour is stated by JavaStrings.ReplaceJoined, for targets whose first character does not recur in them; this covers every placeholder. Replacement of self-overlapping targets (such as "aa" in "aaa") is given by the definition alone, because the bridge never replaces one.
- PlaceholdersFilled: requires that the template's literal text and the argument texts hold no `%`. Java's loop replaces in the text as it stands after the earlier rounds, so an argument text holding a later placeholder would be substituted again; the lemma does not describe that case. Player names and mentions never hold `%`, but the plain text of another argument (such as a renamed mob) might.
- UnusedPlaceholdersKept: covers only templates without any placeholder in range. Templates that mix replaced and unreplaced placeholders are covered by PlaceholdersFilled, under that lemma's restriction.
- DeathFromTemplate: carries the restriction of PlaceholdersFilled.
- ReplaceNextPlaceholder: carries the restriction of PlaceholdersFilled.
